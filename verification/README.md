# A model of the DGX portal's algorithms

The portal is a web application around a local model server. This project models the parts of it that
compute something hard to get right, and proves what they compute. Each file is one component.

| file | component |
|---|---|
| `Diff.dfy` | the line diff of file edits: trimming, table, greedy walk, fallback, folding |
| `Crc.dfy`, `LittleEndian.dfy`, `ZipFormat.dfy`, `ZipRoundTrip.dfy`, `ZipWriter.dfy` | the archive writer, a reader for its format (PKWARE APPNOTE 6.3, sections 4.3.7, 4.3.12, 4.3.16 and 4.4.7), and the way back |
| `Tiling.dfy` | tile-by-tile x4 super-resolution around an abstract operator |
| `PyJson.dfy`, `PyJsonForm.dfy`, `PyJsonRoundTrip.dfy`, `Conversations.dfy` | stored conversations: printer, printed form, reader, size budgets |
| `Lockout.dfy`, `RateLimit.dfy` | the sign-in lockout and the request rate, over every run |
| `JsonLexer.dfy`, `JsonRepair.dfy`, `RepairMeaning.dfy`, `JsonScan.dfy` | one scanner of JSON-like text, and the functions that share it |
| `ScriptDepth.dfy`, `ScriptNesting.dfy`, `ScriptProofs.dfy` | the bracket counter that detects a cut script |
| `Documents.dfy`, `Rejoin.dfy`, `Gluing.dfy` | gluing a cut answer back onto its file |
| `FileHistory.dfy`, `FileLanguages.dfy`, `FileAnswers.dfy`, `FileVersions.dfy` | the files, languages and versions a conversation makes |
| `Sentences.dfy`, `SentenceCuts.dfy`, `EventStream.dfy` | segmenters of streams |
| `VoiceActivity.dfy`, `VoiceTimes.dfy`, `WavDecimation.dfy`, `SpeechChunks.dfy`, `RecentImages.dfy` | speech detection, sound decimation, speech text pieces, the image budget |
| `JsStrings.dfy`, `Numbers.dfy`, `Wrappers.dfy` | string operations, truncation and the option type they share |

Loops and objects are methods and classes, each proved equal to a function; the properties are lemmas
about those functions, for every input, run or cut. Time is a real number given with each step and never
goes back. One call of the lockout or of the rate limiter is one step: two requests do not interleave
inside it, and both failures of one attempt happen at the same instant.

## What the code does that its comments do not say

Each line names the lemma that states exactly when it happens and, where one is worth showing, an input on
which it does.

- The diff past its size bound is still minimal when the two middles share no line, and only then
  (`Diff.AlignMeans`, `Diff.TooLongToAlign`).
- The archive's counter, name lengths and region sizes have 16 or 32 bits and nothing checks them; with
  65536 files or more a reader sees only the count's remainder (`ZipRoundTrip.ArchiveRoundTrip`,
  `ZipRoundTrip.TooManyFiles`).
- The comment of `upscale_4x` calls the padding the network's receptive field. The tiled result equals
  the whole-image one only if the network looks no further than the padding (or the padded tiles cover the
  image); one pixel further already shows (`Tiling.TilingInvisible`, `Tiling.TilingVisible`).
- The lock is reported in whole seconds, rounded down, so a seventh failure fits in its last fraction of
  a second; over any 900 seconds up to eleven wrong passwords of one account are checked
  (`Lockout.GuessesBounded`, `Lockout.GuessesReachBound`).
- The announced wait of the rate limiter is rounded down as well, so a caller who obeys it is refused
  again unless less than a second was left (`RateLimit.AnnouncedWait`).
- `repairClosings` drops a comma before a closer inside strings too (`JsonRepair.RepairedUnchanged`,
  `JsonRepair.CommaInString`). Neither it nor `balanceJson` repairs a text that stops right after a
  backslash inside a string (`JsonRepair.RepairedIsClosed`, `JsonRepair.BalancedIsClosed`); stripping the
  final comma can itself leave such a text (`JsonRepair.CommaWasEscaped`).
- `escapeRawControlChars` escapes three control characters only, and none right after a backslash; JSON
  forbids the others and those too (`JsonScan.EscapingIsSafe`, `JsonScan.ControlStaysRaw`).
- A regular expression literal after `return` and the like is recognised only right after the word: with a
  blank between them its brackets are counted, and a finished script can be taken for a cut one. Nor is one
  recognised right after `${` (`ScriptProofs.BlankAfterWord`, `ScriptProofs.LiteralMisread`).
- A streamed answer and its final call give the sentences of one final call on the whole only if no short
  piece is joined to what follows while the answer grows (`Sentences.StreamedThenFinal`,
  `Sentences.ShortFirst`); nothing is lost either way (`Sentences.FinalCallCompletes`).
- The microphone's pre-roll survives a mute, so a sentence can open with sound from before it, if that is
  recent enough in time heard (`VoiceActivity.OldAudio`, `VoiceActivity.StalePreroll`). The branch that
  reports an end without audio is never taken (`VoiceActivity.CallbacksInOrder`).
- Below 16 kHz the decimation copies samples and fills the rest with silence (`WavDecimation.FilledIff`).
- A file's version list compares contents only, so the language of its last version can be out of date: it
  is the final one exactly when the last block taken for the file since then, if any, is in that language
  (`FileVersions.LastVersionIsFinalState`, `FileVersions.LanguageCanBeStale`).
- Several blocks of one title in one message can undo the protection of a large file, exactly when all but
  the last can bring it down to 800 characters (`FileHistory.FloorHolds`, `FileHistory.TwoBlocksCanEmpty`).
- What the server's tools wrote is called authoritative, but is ignored when its message is handled as a
  resume (`FileHistory.ServerVersionsWin`, `FileHistory.ServerVersionLost`).
- In an edit's replacement text the signs `$$`, `$&`, ``$` `` and `$'`, and only those, are not literal
  (`FileHistory.LiteralReplacement`, `FileHistory.SignIsReplaced`).

## Model

| member | source | states |
|---|---|---|
| Diff.DiffLines | dgx-portal-frontend/lib/diff.ts:19-63 | for every two texts the result is a numbered edit script between their lines, and no script removes and adds fewer lines if and only if the trimmed middles fit the table or have no line in common; and every line's kind follows from the two files alone: between the common ends, a line both show next is kept, else one is added if that leaves as long a common subsequence as removing one, and past the bound all is removed before all is added |
| Diff.MinimalIffLcs | dgx-portal-frontend/lib/diff.ts:3-7 | a script is minimal exactly when the lines it keeps are as many as a longest common subsequence of the two whole files has |
| Diff.LcsTrim | dgx-portal-frontend/lib/diff.ts:22-26 | a common prefix and a common suffix belong to some longest common subsequence: trimming them loses nothing |
| Diff.MiddlesLcs | dgx-portal-frontend/lib/diff.ts:22-33 | the longest common subsequence of the whole files is that of the trimmed middles plus the trimmed lines |
| Diff.ScriptBound | dgx-portal-frontend/lib/diff.ts:10-16 | no script keeps more lines than a longest common subsequence of the texts it describes |
| Diff.ScriptExists | dgx-portal-frontend/lib/diff.ts:10-16 | for any two files some script keeps exactly that many, so the bound is a maximum |
| Diff.CellIsLcs | dgx-portal-frontend/lib/diff.ts:38-44 | each table cell is the length of the longest common subsequence of the two rests it stands for, whatever greedy choice the recurrence makes |
| Diff.CellFits | dgx-portal-frontend/lib/diff.ts:39 | with at most MAX_CELLS cells no entry overflows its 32-bit slot |
| Diff.FillTable | dgx-portal-frontend/lib/diff.ts:39-44 | the backward fill leaves in every cell of the 32-bit table the recurrence's value, without wrap-around |
| Diff.TrimCommon | dgx-portal-frontend/lib/diff.ts:22-26 | the two loops stop at the first difference from each end, prefix first, and the ends never overlap |
| Diff.WalkTable | dgx-portal-frontend/lib/diff.ts:45-58 | the greedy walk extends the script over both middles and keeps exactly as many lines as the table's first cell says |
| Diff.AlignMeans | dgx-portal-frontend/lib/diff.ts:19-63 | the optimality condition of the whole alignment, from trimming, walk or fallback |
| Diff.TooLongToAlign | dgx-portal-frontend/lib/diff.ts:34-36 | two texts past the size bound whose middles share lines: no answer of the diff on them is minimal |
| Diff.Hunks | dgx-portal-frontend/lib/diff.ts:67-85 | the folded view shows exactly the lines within the context of a change, with one mark for each elided stretch |
| Diff.FoldKeepsChanges | dgx-portal-frontend/lib/diff.ts:67-85 | folding hides unchanged lines only, keeps changes in order, and never puts two marks side by side |
| Diff.FoldMeans | dgx-portal-frontend/lib/diff.ts:67-85 | the entries of the view stand for all lines in order: each line shown is within the context of a change, and each mark stands for a stretch of lines that are not |
| Diff.DiffStats | dgx-portal-frontend/lib/diff.ts:87-95 | the two counters differ by exactly the difference in length between the files |
| Crc.Crc32 | dgx-portal-frontend/lib/zip.ts:19-23 | the table-driven loop returns, for every byte sequence, the CRC-32 defined by feeding its bits one by one to the reflected register |
| Crc.MakeTable | dgx-portal-frontend/lib/zip.ts:9-17 | entry n holds the register after eight one-bit shifts from n |
| Crc.ShiftsLinear | dgx-portal-frontend/lib/zip.ts:13 | shifting is linear over exclusive or, for any number of shifts |
| Crc.FeedIsShifts | dgx-portal-frontend/lib/zip.ts:13-21 | mixing n bits in at once and then shifting n times feeds them one by one |
| Crc.LookUpFeedsByte | dgx-portal-frontend/lib/zip.ts:21 | one look-up feeds the register all eight bits of a byte |
| ZipWriter.ZipFiles | dgx-portal-frontend/lib/zip.ts:26-86 | the buffers filled field by field and copied one after another are the archive of the format: local records, central directory, end record |
| ZipWriter.WriteLocal | dgx-portal-frontend/lib/zip.ts:38-51 | the zero-filled buffer ends up as the local record, fields left unwritten included |
| ZipWriter.WriteCentral | dgx-portal-frontend/lib/zip.ts:52-66 | the same for the central directory record, with the local record's offset |
| ZipWriter.WriteEnd | dgx-portal-frontend/lib/zip.ts:72-78 | the same for the end record |
| ZipWriter.WriteRecords | dgx-portal-frontend/lib/zip.ts:31-70 | the running offset is at every file the total length of the local records before it |
| ZipFormat.FieldRoundTrip | dgx-portal-frontend/lib/zip.ts:40-49 | a little-endian field reads back as its value cut to the field's width, for any value |
| ZipFormat.RecordRoundTrip | dgx-portal-frontend/lib/zip.ts:40-49 | any record of such fields reads back field by field, whatever follows it |
| ZipRoundTrip.ArchiveReads | dgx-portal-frontend/lib/zip.ts:26-86 | a reader that checks every field, going from the end record to the directory to the local headers, can see the first n % 65536 of n files; it finds exactly their names, bytes, CRCs, times and dates, in order, if and only if the two regions and those names fit their fields |
| ZipRoundTrip.ArchiveRoundTrip | dgx-portal-frontend/lib/zip.ts:26-86 | for any files whatever, the archive reads back as exactly them if and only if every name, both regions and the count fit their fields |
| ZipRoundTrip.TooManyFiles | dgx-portal-frontend/lib/zip.ts:75-76 | 65536 files that each fit their fields read back as an empty archive |
| ZipRoundTrip.LocalAt | dgx-portal-frontend/lib/zip.ts:65-69 | each local record stands where the recorded offset says |
| Tiling.Upscale4x | image-gen/esrgan.py:104-141 | for every image, tile size, padding and x4 operator, each output pixel comes from the patch of the one tile that holds it |
| Tiling.GlueTile | image-gen/esrgan.py:124-140 | one tile writes its own block of the output and leaves every other pixel alone |
| Tiling.OneTile | image-gen/esrgan.py:122-123 | every coordinate lies in exactly one tile, so each output pixel is written once |
| Tiling.TilingInvisible | image-gen/esrgan.py:104-113 | if the operator looks no further than the padding, or the padded tiles cover the image, the tiled result equals one pass over the whole image at every pixel |
| Tiling.TilingVisible | image-gen/esrgan.py:104-113 | on every image some padded tile does not cover, an operator looking one pixel further than the padding gives a different picture: the condition cannot be weakened |
| Tiling.PatchWindow | image-gen/esrgan.py:124-128 | inside its own tile a pixel sees in the patch the surroundings it has in the image, image edges included |
| Tiling.SeamAt | image-gen/esrgan.py:124-140 | where a pixel depends on one outside its patch, tiled and whole results differ there |
| Conversations.PyDumps | portal-rs/src/conversations.rs:121-177 | pushing piece by piece into one shared buffer builds the printed form of the value |
| Conversations.WriteValue | portal-rs/src/conversations.rs:145-177 | each value is appended to what the buffer held, which stays as it was |
| PyJsonForm.IsPrinted | portal-rs/src/conversations.rs:121-177 | every value has the printed form of the format, told without the printer: a comma and a blank between items, a colon and a blank after keys, decimal digits without a needless zero, the short escapes and lower-case hexadecimal digits for control characters, a backslash before quotes and backslashes, and every other character as it is |
| PyJsonRoundTrip.RoundTrip | portal-rs/src/conversations.rs:121-177 | reading the printed form of any value by the grammar of RFC 8259 gives the value back, for every nesting |
| PyJsonRoundTrip.ValueRoundTrip | portal-rs/src/conversations.rs:145-177 | the same in the middle of a text: the reader stops exactly where the value ends |
| PyJsonRoundTrip.CharsRoundTrip | portal-rs/src/conversations.rs:127-143 | string escapes, as in section 7 of RFC 8259, read back character by character, control characters included |
| PyJsonRoundTrip.IntRoundTrip | portal-rs/src/conversations.rs:149-152 | every integer of 64 bits, signed or unsigned, reads back |
| Conversations.SizeWithoutFirst | portal-rs/src/conversations.rs:292-295 | dropping the first of several messages shortens the serialized list by its text and two characters, exactly |
| Conversations.DropOldest | portal-rs/src/conversations.rs:290-295 | the incrementally reduced total is at every step the exact serialized length of what remains |
| Conversations.TrimToBudget | portal-rs/src/conversations.rs:288-300 | the second, exact loop never removes anything, and the result is the specified suffix |
| Conversations.TrimmedIsLongest | portal-rs/src/conversations.rs:288-300 | what is kept is the longest suffix that fits the budget, or the last message alone |
| Conversations.SavedIsLoaded | portal-rs/src/conversations.rs:303-305 | the messages a save stores are the messages the next load reads |
| Conversations.List | portal-rs/src/conversations.rs:46-67 | every readable row appears, in order, with its messages exactly when it is the first or the budget still holds them |
| Conversations.ServedWithinBudget | portal-rs/src/conversations.rs:43-67 | however many conversations, the text served in full stays within the budget, unless it is the first conversation alone |
| Lockout.RowMeans | portal-rs/src/login.rs:264-286 | after any legal run of failures the row says how many belong to the current window, when it opened and until when the key is locked |
| Lockout.WindowBound | portal-rs/src/login.rs:94-100 | when attempts are made only while no lock is reported, no window counts more than seven failures: one more than the limit, let through in the lock's last fraction of a second |
| Lockout.SpanBound | portal-rs/src/login.rs:257-286 | any span of one window length holds at most eleven failures, wherever windows begin |
| Lockout.BoundsAreReached | portal-rs/src/login.rs:257-286 | legal failure times on a key that reach both bounds |
| Lockout.Attempts.Login | portal-rs/src/login.rs:134-175 | one sign-in attempt changes the stored rows in the source's order: lock check on both keys, failure of both, refusal of a blocked account, reset of both |
| Lockout.AnswerIs | portal-rs/src/login.rs:134-175 | over every run an attempt is refused if and only if the last wrong password since a sign-in, of the account or of the account from this address, was at least the sixth of its window and has a whole second of its lock left; otherwise it fails on a wrong password, tells a blocked account so, and signs in on a right one |
| Lockout.RefusedTellsNothing | portal-rs/src/login.rs:134-175 | while an attempt is refused, neither its answer nor any row depends on whether the password was right or the account blocked, and no row changes |
| Lockout.Attempts.RecordFailure | portal-rs/src/login.rs:264-286 | only the row of the key changes, as one more failure makes it |
| Lockout.RowFollowsFailures | portal-rs/src/login.rs:134-155 | in every run of sign-ins by anyone from anywhere, the row of an account, or of an account and an address, is the one its own wrong passwords make, and those form a legal run |
| Lockout.GuessesBounded | portal-rs/src/login.rs:134-175 | however many addresses try, at most eleven wrong passwords of one account are checked within 900 seconds without a sign-in |
| Lockout.GuessesReachBound | portal-rs/src/login.rs:134-175 | on any account, from any single address, a run of twelve wrong passwords reaches that bound |
| RateLimit.Buckets.RateLimited | portal-rs/src/guards.rs:19-48 | the conditional insert, the re-read and the reopening change the bucket's row and no other, and answer as one atomic step does |
| RateLimit.AnswerIs | portal-rs/src/guards.rs:24-47 | over every run a call is counted if and only if no window is open, or one has been for less than its length and has room; a refused one is told the whole seconds left, or one |
| RateLimit.CountedWindows | portal-rs/src/guards.rs:24-47 | in every run the counted calls split into windows of at most the limit, each opened more than a window length after the one before |
| RateLimit.CountedInSpan | portal-rs/src/guards.rs:24-47 | any span of one window length holds at most twice the limit minus one counted calls |
| RateLimit.CountedInSpanIsReached | portal-rs/src/guards.rs:24-47 | that bound is reached for every limit and window |
| RateLimit.AnnouncedWait | portal-rs/src/guards.rs:40-47 | a refused caller who comes back after exactly the announced seconds is counted if and only if less than one second of the window was left |
| Sentences.NextSentences | dgx-portal-frontend/lib/voice-text.ts:61-82 | the matching loop returns the sentences and the resume position of the recursive walk |
| Sentences.OnlyMatch | dgx-portal-frontend/lib/voice-text.ts:63 | backtracking never finds another boundary: greedy matching of the pattern is its only match |
| SentenceCuts.BoundaryIs | dgx-portal-frontend/lib/voice-text.ts:58-63 | the boundary found is the first position right after a line break, or right after stops and closing marks before white space or the end: never after a dot inside a number or a word |
| SentenceCuts.GrowingCuts | dgx-portal-frontend/lib/voice-text.ts:61-76 | while the answer grows, each sentence ends at the first boundary, not at the very end, that makes it 14 characters long, and after the last one there is no such boundary |
| SentenceCuts.CollectFinalCuts | dgx-portal-frontend/lib/voice-text.ts:61-82 | when the answer has ended, every boundary ends a sentence, what is left after the last one is a sentence, and blank pieces are none |
| Sentences.CollectTiles | dgx-portal-frontend/lib/voice-text.ts:61-82 | sentences follow one another without overlap, only blanks are left out, and each carries the trimmed text of its own range |
| Sentences.NextMatchGrows | dgx-portal-frontend/lib/voice-text.ts:69-71 | a boundary that is not at the very end of a growing text is a boundary of every longer one |
| Sentences.WalkGrows | dgx-portal-frontend/lib/voice-text.ts:61-82 | what a prefix releases is what the whole text releases first, and resuming at the returned position releases the rest |
| Sentences.StreamingChangesNothing | dgx-portal-frontend/lib/voice-text.ts:56-82 | however a text arrives, calls on its growing prefixes give the sentences and positions of one call on the whole |
| Sentences.FinalCallCompletes | dgx-portal-frontend/lib/voice-text.ts:56-82 | streaming in any way and then one final call speaks the whole text: the sentences follow one another over it, and only blanks are left out, between them and at the end |
| Sentences.TilesCover | dgx-portal-frontend/lib/voice-text.ts:61-82 | every position such sentences do not cover is blank |
| Sentences.StreamedIsOneCall | dgx-portal-frontend/lib/voice-text.ts:56-82 | for any schedule of calls that are not final, what is released is what one call on the part of the text seen last releases |
| Sentences.StreamedThenFinal | dgx-portal-frontend/lib/voice-text.ts:52-82 | streaming in any way and then one final call gives exactly the sentences of one final call on the whole if and only if no piece shorter than 14 characters is followed, before the end of what was streamed, by a boundary that makes it long enough |
| Sentences.ShortFirst | dgx-portal-frontend/lib/voice-text.ts:52-82 | an answer for which the two differ: its short first sentence is joined to the next by streaming and stands alone in one final call |
| Sentences.NextMatchShrinks | dgx-portal-frontend/lib/voice-text.ts:61-63 | a boundary of a text is the boundary of every prefix that goes on after it |
| EventStream.ReadStream | dgx-portal-frontend/lib/api.ts:259-277 | the events delivered and the text left over are functions of the concatenated stream |
| EventStream.CutAppend | dgx-portal-frontend/lib/api.ts:263-265 | cutting what arrived and then going on from the remainder is cutting the whole, even when a cut falls inside a blank line |
| EventStream.FramesAreDelivered | dgx-portal-frontend/lib/api.ts:247-277 | every packet closed by a blank line delivers its first line of data, once and in order, whatever other lines it holds; the end mark, packets without data and unreadable ones deliver nothing, and an unfinished one stays in the buffer |
| RecentImages.RecentImagesOf | dgx-portal-frontend/lib/playground-messages.ts:63-80 | the nested loops keep the last images of the thread, as many as the count and the character budget allow, and change nothing else |
| RecentImages.LongestIsLongest | dgx-portal-frontend/lib/playground-messages.ts:61-62 | no longer suffix of the images respects both bounds |
| RecentImages.TrimmedShowsLast | dgx-portal-frontend/lib/playground-messages.ts:63-80 | the images left, in thread order, are exactly that suffix, and every message's other fields are as they were |
| RecentImages.KeepFrom | dgx-portal-frontend/lib/playground-messages.ts:70-76 | one message keeps a suffix of its images, and none once an image further on was left out |
| VoiceActivity.MicListener.Process | dgx-portal-frontend/lib/voiceAudio.ts:98-146 | one frame takes the listener's fields to the next state and makes that step's callbacks, in order |
| VoiceActivity.CallbacksInOrder | dgx-portal-frontend/lib/voiceAudio.ts:98-146 | over every frame sequence: no end or confirmation without its start, at most one confirmation, between two starts an end or a mute; an end says it was confirmed exactly when it was and always carries audio |
| VoiceTimes.ReportsInTime | dgx-portal-frontend/lib/voiceAudio.ts:98-146 | over every run, a start comes exactly when it has been louder than the room for 120 ms without a break, 300 ms under guard; a confirmation when 700 ms were heard, the quiet at the end not counted; an end exactly after 800 ms of unbroken quiet or at 30 seconds |
| VoiceActivity.AudioIsRecent | dgx-portal-frontend/lib/voiceAudio.ts:112-145 | the audio of an end is an unbroken block of the unmuted frames, up to the last one |
| VoiceActivity.OldAudio | dgx-portal-frontend/lib/voiceAudio.ts:105-145 | over every run, the audio of an end holds a frame from before the last mute, and then all that was heard since, if and only if the frame heard last before that mute came after the previous utterance and, together with all heard after it up to the opening frame, lasts at most 350 ms; otherwise it holds only frames heard since the mute |
| VoiceActivity.PrerollReaches | dgx-portal-frontend/lib/voiceAudio.ts:114-118 | the pre-roll holds more than n frames if and only if the last n + 1 frames last no longer than 350 ms |
| VoiceActivity.PrerollOnce | dgx-portal-frontend/lib/voiceAudio.ts:114-118 | cutting the pre-roll as each frame arrives gives what cutting the whole wait once gives |
| VoiceActivity.PrerollIsShort | dgx-portal-frontend/lib/voiceAudio.ts:12 | the pre-roll lasts at most 350 ms or is a single frame |
| VoiceActivity.StalePreroll | dgx-portal-frontend/lib/voiceAudio.ts:105-123 | a mute does not empty the pre-roll: a sentence can open with a frame from before it |
| WavDecimation.Decimate | dgx-portal-frontend/lib/voiceAudio.ts:26-40 | every stored sample is the clipped mean of its own stretch of the sound, in order; samples past the end of the sound stay zero |
| WavDecimation.SampleMeans | dgx-portal-frontend/lib/voiceAudio.ts:35-36 | a sample is its window's mean at full scale, rounded towards zero by less than one step, and full scale beyond it; the mean lies between the quietest and the loudest value |
| WavDecimation.WindowsAreTimes | dgx-portal-frontend/lib/voiceAudio.ts:26-40 | from 16 kHz up, sample j averages exactly the values between its start and end times, and less than one sample of sound is left over |
| WavDecimation.FilledIff | dgx-portal-frontend/lib/voiceAudio.ts:27-29 | no silent end is appended if and only if the rate is at least 16 kHz or the sound is too short to leave one |
| SpeechChunks.ChunkText | voice-qwen/server.py:136-147 | a text is cut at its first separator and so on, its parts where they are too long, and the pieces are joined in order, each chunk taking as many as fit 250 characters; every chunk is non-empty, stripped and at most 400 long, and together they hold the text's non-blank characters in order |
| SpeechChunks.HardSplit | voice-qwen/server.py:123-133 | an overlong piece is cut at the last blank before position 400, or there if it has none, until all parts are short enough; no non-blank character is lost |
| SpeechChunks.CutParts | voice-qwen/server.py:126-130 | wherever the cut falls, both sides have something to say and the rest gets shorter |
| SpeechChunks.PiecesKeepSolid | voice-qwen/server.py:113 | splitting at sentence ends drops white space only |
| SpeechChunks.PiecesMean | voice-qwen/server.py:113 | the text is split at every longest run of white space after one of the six sentence ends, and at every longest run of line breaks elsewhere |
| JsonLexer.ClosedIffTree | dgx-portal-frontend/lib/playground-parsers.ts:82-117 | a text has its strings closed and brackets nested, as one scanner sees it, exactly when it is the text of some tree |
| JsonRepair.RepairClosings | dgx-portal-frontend/lib/playground-parsers.ts:91-117 | the stack walk and the final replacement compute the repaired text |
| RepairMeaning.RepairMeans | dgx-portal-frontend/lib/playground-parsers.ts:82-117 | the repaired text is built, and then freed of commas before closers: outside strings a closer that is owed is written after whatever must be closed first, and leaves owed what stood before its last debt; one that is not owed is dropped; all else is kept; an open string is closed, and all debts are paid, the last first |
| RepairMeaning.RebuiltOnce | dgx-portal-frontend/lib/playground-parsers.ts:91-114 | no text can be built in two such ways |
| RepairMeaning.BracketsOnly | dgx-portal-frontend/lib/playground-parsers.ts:91-116 | brackets outside strings aside, the text built is the given one, with the quote of a string left open, unless it stops inside an escape |
| RepairMeaning.DropCommasMeans | dgx-portal-frontend/lib/playground-parsers.ts:116 | what the replacement drops is each comma before a closer with the blanks between them, and nothing else |
| JsonRepair.RepairedIsClosed | dgx-portal-frontend/lib/playground-parsers.ts:82-117 | the repaired text is closed and properly nested if and only if the text does not stop inside an escape |
| JsonRepair.RepairedUnchanged | dgx-portal-frontend/lib/playground-parsers.ts:82-117 | a text comes out unchanged if and only if it is closed and no comma stands before a closer |
| JsonRepair.CommaInString | dgx-portal-frontend/lib/playground-parsers.ts:116 | a closed text whose only comma before a bracket is inside a string is changed all the same |
| JsonRepair.DropCommasRead | dgx-portal-frontend/lib/playground-parsers.ts:116 | dropping the commas before closers, even inside strings, never changes what the scanner is left with |
| JsonRepair.BalanceJson | dgx-portal-frontend/lib/playground-parsers.ts:123-142 | the loop and the final closing compute the balanced text |
| RepairMeaning.BalanceMeans | dgx-portal-frontend/lib/playground-parsers.ts:123-142 | for any text, the balanced one is the text without its trailing comma, the quote of a string left open, and what is owed when every closer counts for the one due |
| RepairMeaning.StripMeans | dgx-portal-frontend/lib/playground-parsers.ts:138 | a comma with only blanks after it is stripped with them, and nothing otherwise |
| JsonRepair.BalancedIsClosed | dgx-portal-frontend/lib/playground-parsers.ts:123-142 | balancing gives a closed text if and only if no closer was wrong and the stripped text does not stop inside an escape |
| JsonRepair.TruncatedIsClosed | dgx-portal-frontend/lib/playground-parsers.ts:119-142 | a closed text cut anywhere is closed again by balancing, unless the cut leaves half an escape |
| JsonRepair.CommaWasEscaped | dgx-portal-frontend/lib/playground-parsers.ts:136-139 | a text that does not stop inside an escape and is still not closed by balancing: its stripped comma was the escaped character |
| JsonScan.FirstJsonValue | dgx-portal-frontend/lib/playground-parsers.ts:296-318 | the scan returns the text from the first opener to the bracket that brings the depth back to zero outside strings, or nothing |
| JsonScan.ObjectEnd | dgx-portal-frontend/lib/playground-parsers.ts:333-353 | the same scan counting braces only |
| JsonScan.EndMeans | dgx-portal-frontend/lib/playground-parsers.ts:296-353 | for any text, well nested or not, the end found is right after the first counted closer outside strings up to which openers and closers balance |
| JsonScan.ValueIsFound | dgx-portal-frontend/lib/playground-parsers.ts:333-353 | a well-nested value, wherever it stands and whatever follows, ends at its last character, and a cut one has no end |
| JsonScan.FirstValueFound | dgx-portal-frontend/lib/playground-parsers.ts:289-318 | the first value is cut out of any surrounding text whole, and every strict prefix of it is rejected |
| JsonScan.EscapeRawControlChars | dgx-portal-frontend/lib/playground-parsers.ts:268-287 | the loop writes each character as its place inside or outside a string requires |
| JsonScan.EscapingIsSafe | dgx-portal-frontend/lib/playground-parsers.ts:261-287 | escaping keeps what a lenient reader gets; afterwards no string holds a raw control character if and only if all those it held were line breaks, carriage returns or tabs not right after a backslash; and a text is changed if and only if there was one of those |
| JsonScan.ControlStaysRaw | dgx-portal-frontend/lib/playground-parsers.ts:274-281 | any control character right after a backslash, and any other than those three, comes out of a string as it went in |
| JsonScan.EscapingKeepsStructure | dgx-portal-frontend/lib/playground-parsers.ts:268-287 | escaping leaves the scanner in the same state for every text: it moves no string boundary and no bracket |
| ScriptDepth.FinalDepth | dgx-portal-frontend/lib/playground-thread.ts:55-123 | the index, depth and template-stack loop computes the scanner's answer, regular expression literals included |
| ScriptProofs.SlashMeans | dgx-portal-frontend/lib/playground-thread.ts:61-62 | a slash is taken for a literal's start exactly at the start of the code, after a sign that awaits an operand, or right after one of the thirteen words standing alone |
| ScriptProofs.CutIsOpenAt | dgx-portal-frontend/lib/playground-thread.ts:55-123 | on every cut of every well-nested text of brackets, strings, comments, nested templates, regular expression literals where one is due and divisions where none is, the scanner answers what the tree says is open there |
| ScriptProofs.WholeTextIsClosed | dgx-portal-frontend/lib/playground-thread.ts:42-54 | the answer on a whole well-nested text is zero |
| ScriptProofs.CutIsReported | dgx-portal-frontend/lib/playground-thread.ts:42-54 | a cut text gives an answer above zero if and only if the cut is inside a bracket pair or a template, and zero otherwise |
| ScriptProofs.MissingAreCounted | dgx-portal-frontend/lib/playground-thread.ts:42-54 | in a script with brackets missing anywhere, the answer is the number never closed less the number never opened |
| ScriptProofs.BlankAfterWord | dgx-portal-frontend/lib/playground-thread.ts:61-62 | after a name, a slash opens a literal only right after a keyword: with a blank between them it divides |
| ScriptProofs.LiteralMisread | dgx-portal-frontend/lib/playground-thread.ts:87-88 | a finished script that is taken for a cut one, because a keyword and its literal have a blank between them |
| Rejoin.Rejoin | dgx-portal-frontend/lib/playground-parsers.ts:204-241 | the nested search and the two ways of gluing compute the result the properties below are about |
| Gluing.RejoinGlues | dgx-portal-frontend/lib/playground-parsers.ts:178-241 | told of the two texts alone: a continuation that rewrites the document replaces the file; else the file is cut and continued at the best run of common lines that starts within its last 2000 characters; else only the longest start of the continuation that repeats the cut line is skipped |
| Gluing.GluesOnce | dgx-portal-frontend/lib/playground-parsers.ts:178-241 | no other file answers that description |
| Gluing.LosesOnlyToRewrites | dgx-portal-frontend/lib/playground-parsers.ts:205-213 | a file loses more than its last 2000 characters if and only if the continuation rewrites the document without them, and then the result is the bare continuation; never for one of less than half its weight |
| Documents.ReplacesIsRewrites | dgx-portal-frontend/lib/playground-parsers.ts:205-213 | the patterns match exactly when the continuation starts a document after blanks, closes one, and the file holds one, letters in either case, and the continuation weighs at least half of the file |
| Gluing.LinesCompared | dgx-portal-frontend/lib/playground-parsers.ts:214-216 | the lines compared are exactly those of the file's last 6000 characters and of the continuation's first 6000, each at its place, without trailing blanks |
| Rejoin.RejoinMeans | dgx-portal-frontend/lib/playground-parsers.ts:204-241 | unless a whole document is replaced, the result is a prefix of the file missing at most 2000 characters and a suffix of the continuation; characters are missing exactly when there is a splice, a splice is made exactly when some run of common lines qualifies and the best one starts within 2000 characters of the end, and it is made at the best of all qualifying runs |
| Rejoin.BestSpliceIsBest | dgx-portal-frontend/lib/playground-parsers.ts:216-231 | the run chosen has the most characters of all qualifying runs, and is the first of those in row order |
| Rejoin.RunMeans | dgx-portal-frontend/lib/playground-parsers.ts:220-225 | a run takes every line that agrees and stops at the first that does not, and counts their trimmed characters |
| Rejoin.LinesAreLines | dgx-portal-frontend/lib/playground-parsers.ts:194-202 | each listed line starts a line of the text at the recorded place and holds it without trailing blanks |
| Rejoin.EveryLineIsThere | dgx-portal-frontend/lib/playground-parsers.ts:194-202 | every line start of the text is listed |
| Rejoin.JoinLine | dgx-portal-frontend/lib/playground-parsers.ts:251-259 | the downward loop appends the continuation without the repetition it finds |
| Rejoin.SkipIsLongest | dgx-portal-frontend/lib/playground-parsers.ts:243-259 | what is skipped is the longest start of the continuation's first line, of three characters or more, that ends the cut line, and nothing when that line is blank |
| FileHistory.FilesUntil | dgx-portal-frontend/lib/playground-thread.ts:632-726 | the walk returns the state after the given message and shows its observer the state after each message, once each and in order |
| FileHistory.ResumeGlues | dgx-portal-frontend/lib/playground-thread.ts:646-677 | a non-protocol answer to a resume prompt adds no file name and touches no file but the unfinished one; onto that one it glues its continuation, as gluing is told of two texts; the file keeps its language and, unless the continuation rewrites the document, all but at most 2000 of its characters, and stays unfinished exactly when it was cut again; with nothing unfinished, nothing changes |
| FileAnswers.ResumeMeans | dgx-portal-frontend/lib/playground-thread.ts:275-277 | an answer is glued exactly when the message before it is a hidden one of the user that starts with the resume prompt, and it carries no protocol block itself |
| FileAnswers.AnswerLeavesOpen | dgx-portal-frontend/lib/playground-thread.ts:678-687 | any other answer leaves a title unfinished exactly when its fences are odd in number and its last block is code of that title |
| FileAnswers.ResumesConcatenate | dgx-portal-frontend/lib/playground-thread.ts:646-677 | after any number of resumes, all but the last cut again and none repeating anything, the unfinished file holds what it held and everything that followed, in order, and no other file has changed |
| FileAnswers.CutBlockIsCompleted | dgx-portal-frontend/lib/playground-thread.ts:646-706 | a block left open by its answer, and then resumed in that way any number of times, is the whole in one file |
| FileAnswers.AnswerMeans | dgx-portal-frontend/lib/playground-thread.ts:678-723 | an answer works on the files in order: each is what the last of its blocks taken says; then each edit changes what the ones before it left; then each is the last version the server wrote, in the language it had or in that of its extension |
| FileLanguages.TakenOrNot | dgx-portal-frontend/lib/playground-thread.ts:688-706 | a code block is taken exactly when its file is new or of at most 800 characters, or it has 66 hundredths of them, or a quarter if it was left open |
| FileAnswers.FencesMean | dgx-portal-frontend/lib/playground-thread.ts:678-687 | the fences counted are those met from left to right, each after the end of the one before |
| FileAnswers.ClosedContentMeans | dgx-portal-frontend/lib/playground-parsers.ts:152-155 | closing adds a line break and a fence exactly when a fence is open, and leaves none open |
| FileHistory.LangFromExtension | dgx-portal-frontend/lib/playground-thread.ts:627-630 | only what follows the last dot of a name tells the language, in lower case |
| FileHistory.UnfinishedIsKnown | dgx-portal-frontend/lib/playground-thread.ts:639-687 | the file left unfinished is always one of the known files |
| FileHistory.FilesAreKept | dgx-portal-frontend/lib/playground-thread.ts:632-726 | no message ever removes a file or reorders the files |
| FileHistory.StubsNeverReplace | dgx-portal-frontend/lib/playground-thread.ts:688-706 | however many blocks of its title a message holds, a file keeps 66 hundredths of its characters for each closed one and a quarter of what was left at an open last one, as long as each block finds it with more than 800 |
| FileHistory.FloorHolds | dgx-portal-frontend/lib/playground-thread.ts:688-706 | a file keeps that floor in every message with k blocks of its title if and only if it is empty, or k is 0, or its size shrunk k - 1 times to 66 hundredths is still above 800 |
| FileHistory.StubsCanEmpty | dgx-portal-frontend/lib/playground-thread.ts:688-706 | any file that k - 1 blocks can bring down to 800 characters or fewer is emptied by some message with k blocks of its title |
| FileHistory.TwoBlocksCanEmpty | dgx-portal-frontend/lib/playground-thread.ts:688-706 | two blocks of one message can empty a file of 1000 characters, once the first has brought it to 800 or fewer |
| FileHistory.EditChangesOne | dgx-portal-frontend/lib/playground-thread.ts:707-717 | an edit changes the file it names, the known one of that very name or else the first, in order, that is the same but for a directory, at the first place where its anchor stands; it changes nothing if and only if it names none or its anchor stands nowhere in it |
| FileHistory.LiteralReplacement | dgx-portal-frontend/lib/playground-thread.ts:716 | a replacement is inserted as it is, whatever it replaces and wherever, if and only if no dollar sign in it is followed by another, an ampersand, a backquote or an apostrophe |
| FileHistory.SignMeans | dgx-portal-frontend/lib/playground-thread.ts:716 | the first dollar sign followed by one of those four is replaced by a dollar sign, the text found, the text before it or the text after it, and what follows is read the same way |
| FileHistory.SignIsReplaced | dgx-portal-frontend/lib/playground-thread.ts:716 | an edit that writes something else than its replacement |
| FileHistory.ServerVersionsWin | dgx-portal-frontend/lib/playground-thread.ts:656-677 | the last version the server wrote of a file is what the file holds after any assistant message not handled as a resume; after a resume, a new file is unknown, any but the unfinished one holds that version only if it did before, and nothing the server wrote with it changes the next state |
| FileHistory.ServerVersionLost | dgx-portal-frontend/lib/playground-thread.ts:656-661 | a run in which the server wrote a file and the conversation does not know it |
| FileLanguages.MessageGivesLang | dgx-portal-frontend/lib/playground-thread.ts:646-723 | a message gives a known file the language of the last of its blocks that was taken; edits, server versions and resumes keep the one it had |
| FileLanguages.LangComesFromBlocks | dgx-portal-frontend/lib/playground-thread.ts:632-726 | over any stretch of the conversation a file's language is that of the last block taken for it, or the one it had before |
| FileVersions.AllVersions | dgx-portal-frontend/lib/playground-thread.ts:733-744 | the single walk lists exactly the known files, in order, each with the versions the properties below are about |
| FileVersions.VersionsAreHistory | dgx-portal-frontend/lib/playground-thread.ts:728-744 | versions are states of the file, oldest first, consecutive ones with different content |
| FileVersions.VersionsAreComplete | dgx-portal-frontend/lib/playground-thread.ts:733-744 | after every message, the file is known exactly when a version at or before it exists, and holds the content of the last such version |
| FileVersions.LastVersionIsFinal | dgx-portal-frontend/lib/playground-thread.ts:733-744 | the last version holds the final content, which has not changed since its message, and the language the file had at that message |
| FileVersions.LastVersionIsFinalState | dgx-portal-frontend/lib/playground-thread.ts:733-744 | the last version is the final file, language included, if and only if the last block taken for the file after that version's message, if there is one, is in the version's language |
| FileVersions.LanguageCanBeStale | dgx-portal-frontend/lib/playground-thread.ts:736-740 | two answers, each one fenced block of the same name and content in another language: one version, in the first language, and a file in the second |

## Left out

- Conversations.List: the items' title, model and date, which are copied; rows come already sorted.
- PyJsonRoundTrip.RoundTrip: numbers that are not integers of 64 bits, and the reader's nesting limit of 128.
- ZipWriter.ZipFiles: the UTF-8 coding of names and contents, which are byte sequences here, and the packing of the date, whose two fields are parameters.
- ZipRoundTrip.ArchiveReads: readers that search for the end record; the one here takes it as the last 22 bytes, since the writer adds no comment.
- Tiling.Upscale4x: the network itself, scaling and rounding of pixel values, which are inside the abstract operator.
- ScriptProofs.CutIsReported: a regular expression literal where the code takes its slash for a division; `ScriptProofs.SlashMeans` says where that is.
- Lockout.Attempts.Login: password hashing, the directory, cookies, the passkey step, sources and quotas after a sign-in, and how the username is lowered and stripped; whether the password was right and the account blocked is part of the input.
- RateLimit.Buckets.RateLimited: the database errors; `job_slot` and `job_done` would only add easy members.
- EventStream.ReadStream: decoding of bytes to text, the HTTP checks before the loop, and an exception thrown by the event handler itself; the JSON reader is any function.
- Sentences.NextSentences: `speakable`, `isPhantomTranscript` and `looping`, which are chains of replacements.
- VoiceActivity.MicListener.Process: the smoothed `level` for the halo; loudness, a root mean square, and duration of a frame are inputs.
- WavDecimation.Decimate: the fixed 44-byte header, and the rounding of floating-point sums, which are real numbers here as in all sound and time arithmetic.
- The voice model that speaks the text pieces, and the joining of its sound, are not part of this model.
- FileHistory.FilesUntil: the patterns of `parseArtifacts`, `parseEdits`, `continuationBody`, the protocol test and `incompleteResponse` are arbitrary functions of what they are given; the observer is shown as the list of states it receives.
- FileHistory.LangFromName: a server-written file whose extension is the name of a built-in property, such as `constructor`, gets no usable language in the source; here it is plain text.
- Documents.ReplacesIsRewrites: the three patterns of the whole-document test are written out by hand, ignoring case of ASCII letters as they do.
- Characters outside the basic plane are one character here and two code units in the browser code.
- `SpeechPlayer`, `messageMerge`, `messageFragments`, `trimAfterAsk`, `forSave` and the other one-branch helpers would only add easy members.
- Networks, databases, directory, mail, storage, the screens and the audio devices are not part of this model.
