# A verified model of the microVM launcher's streaming and planning cores

The launcher boots microVMs, keeps their consoles, runs commands in them and replays CI
configurations on them. Six of its cores do something incremental, concurrent or iterative that has to
agree with a simple statement about the whole input. This project models those cores in Dafny, in the form
the source gives them (classes with updated fields, loops with invariants, in-place buffers, step relations
for what runs concurrently), and proves the agreement for every input, every way of cutting it into reads
and every interleaving.

`dafny verify dfyconfig.toml` checks everything. The flags that make it strict are
`--resource-limit 2000000 --verification-time-limit 0 --warn-contradictory-assumptions`.

## Layout

| file | what it models |
|---|---|
| `Wrappers.dfy`, `Streams.dfy`, `Lines.dfy` | optional values; byte streams that arrive in pieces, occurrences of one string in another; whole lines of a stream |
| `ExitMarker.dfy` | the console client's marker filter |
| `Csi.dfy`, `PaintFilter.dfy`, `Broker.dfy` | control sequences (section 5.4 of ECMA-48), the three-state firmware paint filter, and the broker's path from the guest to the log |
| `ExecCodec.dfy`, `ExecPiped.dfy` | the exec protocol: its frames, and the guest's concurrent senders |
| `ExecLink.dfy`, `ExecFlow.dfy` | one direction of its socket, and one whole exec with bounded buffers around a child that reads, writes and exits at will |
| `GroovyLexer.dfy`, `GroovyPieces.dfy`, `GroovyOpenStrings.dfy` | the Jenkinsfile tokenizer, the grammar of blanks, comments, strings, words and marks that it is proved against, and what it refuses |
| `GroovyParser.dfy`, `GroovyGrammar.dfy`, `GroovyRender.dfy` | the statement parser, the grammar of statements that it is proved against, and a canonical rendering it inverts |
| `Ordering.dfy` | the dependency ordering of five CI front ends, as one parametric loop |
| `Elf.dfy`, `ElfWriter.dfy`, `Unikraft.dfy` | kernel image flattening, the entry shim, executables as a writer makes them, and what is booted for a unikernel |
| `Orbs.dfy`, `OrbTokens.dfy`, `OrbInlining.dfy` | orb expansion (substitution, conditions, recursive inlining with a depth limit), and the readings and rules that it is proved against |
| `Masking.dfy`, `Encoding.dfy`, `Secrets.dfy`, `StepLog.dfy` | the replacer, base64, the masker's keys and what they hide, and the two writers of a step's output |
| `TailFollow.dfy` | the log stream that follows a growing file |

Each imperative method is tied by its `ensures` to a function of its inputs (or of the old state), and the
results below are proved about those functions. Where such a function says how something is computed, a second
description that does not mention it pins it down: a grammar with exactly one reading (control sequences, Jenkinsfile
tokens and statements, parameter tokens, masked lines), rules (conditions, orb steps), a writer that it inverts
(executables, frames, requests, base64), or a relation with exactly one solution (the job order, the arming and the
retirement of the paint filter). Most run-wide results use a list of reads, wake-ups or steps
as the run; the predicates say which runs there are.

## Where the code does not do what one might expect

These are results of the model: each is a lemma with the exact condition or a family of inputs.

- The paint filter is not independent of how the console is cut into reads. It retires at the end of a read, so
  painting behind the handoff line is still removed if it shares a read with it (`PaintFilter.CutsMatter`); and a
  cut through the banner at the end of the budget keeps it from arming at all (`PaintFilter.ArmingMatters`). Two
  cuts of the same bytes give the same output exactly if they lose equally many bytes (`PaintFilter.CutsAgreeIff`).
- A secret is hidden in every masked line, whatever other secrets there are, exactly if it has no `*` at either end
  and no `***` inside (`Secrets.HiddenIffSafe`; the secrets `*a` and `z` and the line `za` are an example,
  `Secrets.MaskedLineLeaks`). In the indented log it must besides not start with a space, because the indentation
  can complete it (`StepLog.IndentedHidesIff`, with the secret ` a` in `StepLog.IndentationLeaks`). Both are for
  secrets that leave some byte outside the base64 alphabet unused. The base64 forms of a secret are always hidden.
- The ordering loop reaches its bound exactly if no name is used twice (`Ordering.FinishesIffDistinct`); the
  GitHub front end has that from its map keys, the others do not check.
- A unikernel file that is an ELF whose image asks for text offset 0 is handed to the loader unflattened, as if
  it were a raw image, although the module's documentation says that an ELF is flattened; that boots only if the
  file happens to begin with its own image (`Unikraft.BootsUnlessUnshimmedElf`, `Unikraft.UnshimmedElf`).
- A frame or string of 2^32 bytes or more does not survive the 32-bit length field
  (`ExecCodec.FrameRoundTrip` and `ExecCodec.RequestRoundTrip` hold exactly below that).
- The log stream never sends what follows the last newline of a log, and closes normally all the same
  (`TailFollow.EveryLineOnce`, `TailFollow.UnterminatedLineIsNeverSent`).
- The tokenizer's line numbers are too small by the newlines that a backslash has taken with it inside a string
  (`GroovyPieces.LinesAreExact`).

## Model

| member | source | states |
|---|---|---|
| ExitMarker.PartialMarkerSuffix | core/src/console.rs:674-682 | finds the longest suffix that is a proper prefix of the marker, not just some suffix |
| ExitMarker.HangIsLocal | core/src/console.rs:643-650 | what may be the start of a marker over the whole stream so far is the same as over the carry and the new bytes |
| ExitMarker.HoldCutsNoMarker | core/src/console.rs:649-653 | holding back the longest hanging suffix cuts through no marker, however the stream goes on |
| ExitMarker.HeldBytesPass | core/src/console.rs:667-669 | the bytes held back at the end hold no marker, so flushing them unchanged is right |
| ExitMarker.StripSplits | core/src/console.rs:655-664 | stripping a concatenation is stripping the parts, and counts add up, wherever no marker straddles the cut |
| ExitMarker.StripIsUncovered | core/src/console.rs:655-664 | the greedy pass removes exactly the bytes that lie in an occurrence of the marker, and its count is the number of occurrences |
| ExitMarker.MarkerFilter.Feed | core/src/console.rs:643-665 | keeps the carry the longest hanging suffix of the whole stream and the output the strip of all before it, with the count |
| ExitMarker.MarkerFilter.Flush | core/src/console.rs:667-669 | afterwards all that was put out is the one-pass strip of all that came in |
| ExitMarker.Filtered | core/src/console.rs:343-424 | for every list of reads, the client's output is the stream without the covered bytes and the counts sum to the number of occurrences |
| ExitMarker.MarkerText | core/src/console.rs:338-338 | the marker as text |
| Csi.ScannedMeans | core/src/console.rs:605-629 | the verdict against the grammar: complete exactly if a control sequence is at the front (with its length and final byte), partial exactly if one may still come, none exactly if no continuation makes one |
| Csi.ScannedStable | core/src/console.rs:605-629 | more input never changes a verdict once reached |
| Csi.ParseCsi | core/src/console.rs:605-629 | the index loops compute that verdict |
| Csi.ScanResumes | core/src/console.rs:548-579 | stripping may stop after any prefix and resume from the bytes held back, with the same output and the same remainder |
| Csi.UnpaintedMeans | core/src/console.rs:548-579 | every text has exactly one reading into single bytes and whole sequences, and stripping removes exactly the sequences of that reading that end in J, H, f, h or l, leaving an unfinished tail verbatim |
| Csi.OnlyPaintingGoes | core/src/console.rs:560-566 | of the sequences without intermediates exactly those ending in J, H, f, h or l are removed, so colour stays |
| PaintFilter.FindMarker | core/src/console.rs:513-513 | finds the first occurrence, or establishes that there is none |
| PaintFilter.ProbeFirstEnd | core/src/console.rs:502-517 | the first occurrence inside the bounded probe is the first one in everything watched so far, and it ends in the new bytes |
| PaintFilter.FirmwarePaintFilter.Saw | core/src/console.rs:502-517 | under every split, reports a marker exactly in the call that completes its first occurrence, with its true end in that chunk, so the subtraction never saturates; the probe never outgrows chunk plus marker |
| PaintFilter.ScanBuffer | core/src/console.rs:548-579 | the loop puts out the decided bytes without painting and holds back exactly the unfinished sequence |
| PaintFilter.FirmwarePaintFilter.Feed | core/src/console.rs:519-589 | keeps the whole-run law; states only move Disarmed, Armed, Off; Off is the identity; not Off means fewer than 8192 bytes seen and no more than that held back |
| PaintFilter.FirmwarePaintFilter.StripRead | core/src/console.rs:548-588 | the armed half of a read keeps the law: it retires exactly when the anchor has come through or the budget is used up, releasing what was held back |
| PaintFilter.FirmwarePaintFilter.Flush | core/src/console.rs:592-594 | all that was put out is then the law over all that came in |
| PaintFilter.Painted | core/src/console.rs:519-594 | for every list of reads the output is the stream untouched up to the end of the first banner, without painting up to the end of the read that retires the filter, and untouched behind it; a stream without the banner passes unchanged |
| PaintFilter.MarkerTexts | core/src/console.rs:457-461 | the banner and the handoff line as text |
| PaintFilter.OneFate | core/src/console.rs:519-594 | the arming point, its read and the retiring read are determined by the reads |
| PaintFilter.UnderwayLacksASequence | core/src/console.rs:519-594 | at any moment of a run, what has been put out lacks nothing of the outcome over the reads so far but an unfinished control sequence at its end |
| PaintFilter.CutsAgreeIff | core/src/console.rs:519-594 | two ways to cut the same bytes into reads, whether they arm or not and wherever they retire, give the same output exactly if they lose equally many bytes |
| PaintFilter.BothArm | core/src/console.rs:519-594 | two cuts that both arm do so at the same offset, and their outputs agree exactly if painting takes equally many bytes up to the two retiring reads |
| PaintFilter.OneArms | core/src/console.rs:519-594 | a cut that arms agrees with one that does not exactly if it loses nothing |
| PaintFilter.LaterRetirement | core/src/console.rs:581-588 | on one stream with one arming point, retiring later changes the output exactly if stripping removes something in between |
| PaintFilter.CutsMatter | core/src/console.rs:581-588 | the same bytes in one read and in two retire at different places and give different outputs |
| PaintFilter.ArmingMatters | core/src/console.rs:531-545 | the same bytes cut in front of the banner and inside it, at the end of the budget: one run arms and removes painting, the other never arms |
| Broker.Terminal.Read | core/src/console.rs:192-212 | a non-blocking read takes any non-empty front of what is pending, up to the buffer size; at the end or on an error it takes nothing |
| Broker.Drain | core/src/console.rs:218-228 | reads until the terminal is dry or a read fails, with every read going through the filter to the log |
| Broker.OnWakeup | core/src/console.rs:176-238 | one round of the poll loop: which wake-ups end it and how; one that reports the terminal reads it exactly once unless it is dry, no other reads, and a drain stops only when dry or at its failing read; log and filter stay in step, and on the way out what the filter holds back is released |
| Broker.BrokerLoop | core/src/console.rs:159-296 | however the guest's writes, wake-ups and partial reads interleave, the log only grows; while the loop runs it lacks nothing of the bytes read but an unfinished sequence, and no more is unread than the wake-ups account for; at the end it is extended by the filter's whole outcome over the bytes read, which are all the guest ever wrote once the liveness pipe ends the loop and no read of the drain fails |
| Broker.BacklogClears | core/src/console.rs:192-212 | a guest that has stopped writing is read dry after at most as many reading wake-ups as there are unread bytes |
| ExecCodec.FrameRoundTrip | core/src/agent.rs:426-440 | reading a written frame gives it back and leaves any following bytes, exactly if the payload is shorter than 2^32 bytes |
| ExecCodec.FrameBytes | core/src/agent.rs:426-431 | the bytes on the wire: channel, length with the low byte first, payload |
| ExecCodec.PartialFrame | agent/src/main.rs:476-487 | no proper prefix of a frame is handed over |
| ExecCodec.WholeFramesOnly | core/src/agent.rs:433-440 | a sequence of frames and an unfinished rest decode to exactly those frames and that rest |
| ExecCodec.RequestRoundTrip | agent/src/main.rs:453-466 | reading a written request gives it back and leaves what follows, exactly if every count and length is below 2^32 |
| ExecCodec.RequestBytes | core/src/agent.rs:408-424 | the bytes of a request: terminal flag, counted arguments, counted variables, each with its length |
| ExecCodec.TtyByte | agent/src/main.rs:453-454 | any byte but 0 in front asks for a terminal |
| ExecCodec.PartialRequest | agent/src/main.rs:453-466 | no proper prefix of a request is accepted |
| ExecCodec.Connection.ReadRequest | agent/src/main.rs:453-466 | the reader that consumes field by field takes exactly the request at the front of the connection, or nothing |
| ExecCodec.Connection.ReadFrame | core/src/agent.rs:433-440 | the host's reader with a five-byte header takes exactly the frame at the front |
| ExecCodec.Connection.ReadFrameInTwo | agent/src/main.rs:476-493 | the guest's reader, which takes the channel first, reads the same frames |
| ExecCodec.ExitCodeSurvives | agent/src/main.rs:248-253 | every signed 32-bit exit code survives the unsigned little-endian trip |
| ExecCodec.HostLoop | core/src/agent.rs:354-372 | the loop over the socket yields the outcome of the decoded frames up to the first exit frame |
| ExecCodec.OutcomeMeans | core/src/agent.rs:354-372 | the outcome of any frames: the two outputs in front of the first exit frame, its code if it has four bytes, and nothing behind it |
| ExecPiped.StepKeeps | agent/src/main.rs:404-416 | every step of the two pump tasks and the exit send, with a lock and partial writes, keeps the wire framed and every byte accounted for |
| ExecPiped.WireIsFramed | agent/src/main.rs:230-253 | at any moment of any interleaving the host decodes exactly the frames sent in full, has a prefix of each channel, and nothing follows an exit frame |
| ExecPiped.HostGetsEverything | agent/src/main.rs:217-254 | once the exit status is out, the host's loop yields all the child's output, all its errors and its exit code, in every interleaving |
| ExecPiped.EveryRunTells | agent/src/main.rs:217-254 | every run is linear in what the child writes and is never stuck before the exit status is out |
| ExecPiped.WiresAreInterleavings | agent/src/main.rs:217-254 | the wires of whole runs are exactly the interleavings: the child's two outputs, each cut in any way into pieces of 1 to 8192 bytes, in any common order, with the exit frame behind |
| ExecLink.FirstInFlight | core/src/agent.rs:433-440 | a reader that has what its header announces has exactly the first frame in flight |
| ExecLink.LinkMoves | core/src/agent.rs:334-352 | a socket direction with a frame in flight can always write, receive or hand over, whatever its capacity |
| ExecFlow.StepKeeps | agent/src/main.rs:216-254 | every step of host, guest and child keeps each byte, in order, at exactly one place on its way, the lock exclusive, and the exit frame last |
| ExecFlow.SomeStep | core/src/agent.rs:323-386 | in every reachable state, unless the host is done or the child is running on its own, some other step is enabled |
| ExecFlow.StepShrinks | core/src/agent.rs:323-386 | every step but the child's decisions decreases a measure, and a decision adds no more than what it asks for |
| ExecFlow.NeverDeadlocks | core/src/agent.rs:323-386 | with any buffer sizes and any child that reads, writes on both pipes and exits at will: a run is no longer than its input and the child's decisions account for, is never stuck short of the end except for a child running on its own, the child reads a prefix of the input, and with the exit status the host has all that the child wrote on either pipe |
| ExecFlow.CopierNeverDeadlocks | core/src/agent.rs:323-386 | a child that copies its input: every run ends within a bound linear in the input, none gets stuck, and then the host's output is its input, with nothing on standard error and the child's exit code |
| GroovyLexer.GvLex | ci/platforms/jenkins.go:258-323 | the index-and-line loop yields the token list that the input stands for, or the line of the unterminated string |
| GroovyLexer.ScanString | ci/platforms/jenkins.go:283-309 | the string loop finds the closing quote and the unescaped text |
| GroovyLexer.CharacterClasses | ci/platforms/jenkins.go:325-339 | which bytes make words, which are blank or quotes, and what an escape stands for |
| GroovyLexer.PunctIsUtf8 | ci/platforms/jenkins.go:317-320 | a byte of punctuation becomes the UTF-8 of its code point |
| GroovyPieces.TokensAreRead | ci/platforms/jenkins.go:258-323 | the tokenizer accepts exactly the sources that can be partitioned into blanks, comments, strings, words and marks, each as long as it can be, and yields the tokens of any such partition |
| GroovyPieces.PieceIsTaken | ci/platforms/jenkins.go:262-320 | one round of the loop takes exactly one piece, with its token and its line count |
| GroovyPieces.LinesAreExact | ci/platforms/jenkins.go:258-323 | a token's line is one more than the newlines before it (and inside it, for a string), less those that a backslash has taken with it |
| GroovyOpenStrings.RefusesOpenStrings | ci/platforms/jenkins.go:283-309 | exactly the sources that can be read up to a string that nothing closes are refused, with one more than the lines counted before that string and in it |
| GroovyParser.GvParser.GvBlock | ci/platforms/jenkins.go:344-402 | the cursor-moving parser ends on every token stream, only moves forward, and yields the statements and remaining tokens of the recursive description |
| GroovyParser.MarkTexts | ci/platforms/jenkins.go:347-378 | the marks that structure statements are the parentheses and the braces |
| GroovyParser.GvParse | ci/platforms/jenkins.go:245-256 | the whole pipeline, with its two errors and their lines |
| GroovyGrammar.ParseIsReading | ci/platforms/jenkins.go:344-402 | against a grammar of statements, arguments, parentheses, blocks and stray punctuation: a source parses exactly if the reading of its tokens leaves nothing over, to the statements of any such reading; else the error names the line of the first close brace that nothing opened |
| GroovyGrammar.NoCloseBraceParses | ci/platforms/jenkins.go:349-356 | a source that tokenizes and has no close brace parses, whatever else stands between its statements |
| GroovyParser.BlockKeeps | ci/platforms/jenkins.go:344-402 | for every token stream and depth, the tokens taken are the pre-order walk of the statements with punctuation left out |
| GroovyParser.ParseKeepsTokens | ci/platforms/jenkins.go:245-256 | when parsing succeeds, every identifier and string token occurs exactly once, in source order, as a name or argument, with its literal flag |
| GroovyRender.LexRendered | ci/platforms/jenkins.go:258-323 | tokenizing a rendering gives the expected tokens with the expected lines, whatever follows |
| GroovyRender.ParseInvertsRender | ci/platforms/jenkins.go:245-402 | for every statement tree with identifiers for names and words, arbitrary quoted strings or plain punctuation for arguments, parsing its rendering gives it back, literal flags included |
| Ordering.OrderJobs | ci/platforms/github.go:98-127 | ends; the order is a permutation whose first jobs are exactly the ones that can ever be taken, each behind all its needs, pass by pass and in each pass as listed; the rest follows sorted or as given, and is empty exactly if all can be ordered |
| Ordering.OrderIsDetermined | ci/platforms/github.go:98-127 | that contract has exactly one solution |
| Ordering.NeedsExplainOrder | ci/platforms/github.go:102-119 | a job listed before another and taken behind it was held back by a need that is taken behind that other job, or is listed behind the job itself |
| Ordering.RestInOrder | ci/platforms/azure.go:262-273 | what cannot be ordered comes as it is listed, or sorted by name |
| Ordering.IdleStateIsGroundedPart | ci/platforms/github.go:98-127 | at the first pass that takes nothing, exactly the well-founded part of the needs graph has been taken |
| Ordering.StuckMeansCycle | ci/platforms/tekton.go:221-251 | a job that can never be taken, with every need declared, yields a cycle (a finite-graph argument) |
| Ordering.NoGroundedCycle | ci/platforms/tekton.go:221-251 | no job on a cycle can ever be taken |
| Ordering.OrderableMeansGrounded | ci/platforms/circleci.go:151-182 | every job can be taken exactly if there is no cycle and, where undeclared needs block, every need is declared |
| Ordering.FallbackIffNotOrderable | ci/platforms/azure.go:237-276 | the fallback gets something to append exactly if the jobs cannot all be ordered; undeclared needs count as satisfied in this variant |
| Ordering.FallbackIsOrdered | ci/platforms/semaphore.go:155-194 | appending the rest keeps the order a permutation with its ordered front |
| Ordering.FinishesIffDistinct | ci/platforms/azure.go:278-314 | the loop reaches its bound exactly if no name is used twice |
| Ordering.SortByNameSorts | ci/platforms/github.go:112-124 | the fallback's rest is sorted by name and loses nothing |
| Ordering.NameLeMeans | ci/platforms/semaphore.go:186-190 | names compare as in a dictionary: a beginning first, else by the first difference |
| Elf.LoadsInMeans | core/src/elf.rs:43-69 | the scan succeeds exactly if no header is truncated, overflows or reaches past the file, and then has exactly the loadable segments with file bytes |
| Elf.HeaderMeans | core/src/elf.rs:43-69 | what the header at table offset plus index times entry size comes to, in terms of the bytes of the file |
| Elf.RefusalsInOrder | core/src/elf.rs:17-37 | when each of the first four refusals applies |
| Elf.ElfToImage | core/src/elf.rs:15-90 | the buffer that the copies fill is the memory the segments describe, and every refusal is the first one that applies |
| Elf.Store | core/src/elf.rs:71-83 | copying in header order into a zeroed buffer, always in range, refines that memory |
| Elf.LastWriterWins | core/src/elf.rs:79-83 | the last segment that covers an address decides its byte |
| Elf.GapsAreZero | core/src/elf.rs:79-83 | an address that no segment covers holds zero |
| Elf.SegmentVerbatim | core/src/elf.rs:79-83 | a segment that no later one overlaps appears verbatim at its distance from the lowest address |
| Elf.OrderIsMoot | core/src/elf.rs:79-83 | without overlaps the order of the headers does not matter |
| ElfWriter.FlatteningInverts | core/src/elf.rs:15-90 | an executable written with any program headers, the table anywhere and its entries of any size from 56, flattens to the memory of its loadable segments in their order, unless that ends beyond 64 bits or holds no arm64 kernel |
| ElfWriter.NothingToInvert | core/src/elf.rs:60-69 | and is refused if it has no loadable segment, or one whose end is no 64-bit offset |
| ElfWriter.ImageInverts | core/src/elf.rs:15-90 | an executable with an image as its only segment flattens to that image, exactly if the image is at least 64 bytes, carries the arm64 magic, and its ends in the file and in memory fit 64 bits |
| Elf.BranchIsPlus | core/src/elf.rs:132-132 | the bitwise "or" of the opcode with the masked distance is their sum |
| Elf.BranchReaches | core/src/elf.rs:121-133 | the word written at the entry decodes as an A64 `B` (section C6.2 of Arm DDI 0487) by exactly the offset, for precisely the offsets that the range check admits |
| Elf.ShimTextOffset | core/src/elf.rs:113-137 | the shimmed copy is a branch, zeros up to the offset and the image; the four other outcomes are as checked |
| Elf.ShimOutcomes | core/src/elf.rs:113-137 | which of the five outcomes applies, by the little-endian number at bytes 8 to 16, and what the shimmed copy holds |
| Elf.ShimBoots | core/src/elf.rs:98-137 | loaded at the fixed address, every byte of the image is at the load address plus its offset, and the entry leads to its first byte; without a shim that holds already |
| Elf.LandsWhereLinked | core/src/elf.rs:71-137 | flattening and shimming together put the executable's byte for physical address p at the load address plus the text offset plus p less the lowest address |
| Elf.ReadOutcomes | core/src/elf.rs:151-165 | a file is refused for its form exactly if it neither begins with the ELF magic nor holds the arm64 magic at offset 56 |
| Unikraft.BootsUnlessUnshimmedElf | core/src/unikraft.rs:50-103 | the file handed over boots the image exactly if it is not an executable whose image asks for offset 0, or happens to begin with that image |
| Unikraft.UnshimmedElf | core/src/unikraft.rs:68-79 | for every such image, an executable that shows it |
| Unikraft.Refusals | core/src/unikraft.rs:66-79 | a file is refused exactly for what refuses its image or its shim |
| Orbs.NothingToSubstitute | ci/platforms/ccorbs.go:143-153 | text whose tokens name no parameter passes unchanged |
| OrbTokens.TokenAtMeans | ci/platforms/ccorbs.go:143-143 | a token is found at an offset exactly if the text there is one, blanks included |
| OrbTokens.SubstMeans | ci/platforms/ccorbs.go:143-153 | every text can be read as tokens and other characters, and however it is read, the tokens that name a parameter become its value and all else stays; the token a step is recognised by is the first |
| Orbs.ParamValues | ci/platforms/ccorbs.go:174-206 | in whatever order the maps are visited, each name gets the argument (substituted in the caller's scope), else the default, else the empty string; steps parameters get the list given, else the default list |
| Orbs.ParamsMean | ci/platforms/ccorbs.go:174-206 | what becomes of each name, case by case |
| Orbs.EvaluateCondition | ci/platforms/ccorbs.go:221-284 | the short-circuiting evaluation, with the reason for the first part that is not supported |
| Orbs.ConditionIsLogic | ci/platforms/ccorbs.go:210-284 | for conditions within the supported logic the verdict is the truth of the formula |
| OrbInlining.DecidesIsEvaluated | ci/platforms/ccorbs.go:210-284 | the verdict by rules, unsupported parts included: the first part of an "and" or "or" that does not go on decides |
| Orbs.ExpandSteps | ci/platforms/ccorbs.go:286-302 | ends for every import set, cyclic ones included, with the steps in order |
| OrbInlining.ExpansionIsInlining | ci/platforms/ccorbs.go:286-439 | every list of steps can be inlined by one rule for each kind of step (conditions, splices, references with their orb, values and prefix, reports), and however that is done, expansion puts out its steps |
| Orbs.ResolveCommandRef | ci/platforms/ccorbs.go:412-439 | a reference is inlined in the target orb's scope with every name prefixed, a broken import is reported, and anything else is no command |
| Orbs.ExpansionIsBounded | ci/platforms/ccorbs.go:286-302 | with at most b entries in every step list, at most b to the 13th steps come out |
| Orbs.LimitIsInvisible | ci/platforms/ccorbs.go:286-302 | an expansion that stays within the limit is the same from any smaller depth, so it is the full inlining |
| Orbs.OverrunIsReported | ci/platforms/ccorbs.go:293-298 | an expansion that exceeds the limit has the report among its steps, at any nesting and under any renaming |
| Orbs.NoSilentCut | ci/platforms/ccorbs.go:286-302 | steps without that report are the full inlining |
| Orbs.SelfReference | ci/platforms/ccorbs.go:286-302 | a command that only calls itself never stays within the limit and comes to a single step |
| Orbs.SplicesDoNotNest | ci/platforms/ccorbs.go:308-311 | a steps parameter inside a spliced list comes to nothing, or to the report at the limit |
| Lines.SplitJoins | ci/runner.go:310-331 | splitting into whole lines and a rest loses nothing |
| Lines.SplitIsUnique | ci/runner.go:310-331 | there is only one such split |
| Lines.SplitResumes | ci/runner.go:310-331 | splitting may stop anywhere and resume from the bytes behind the last newline |
| Masking.FrontWasUnmasked | ci/secrets.go:115-134 | what reads like a safe key at the front of masked text was there unmasked |
| Masking.SafeKeyIsHidden | ci/secrets.go:115-134 | whatever the other keys are and however they are ordered, a safe key occurs in no masked line |
| Masking.MaskIsReading | ci/secrets.go:115-134 | a line reads, from left to right, as the first key that matches or a byte where none does, and exactly the keys become three stars |
| Encoding.Base64Inverts | ci/secrets.go:121-122 | the standard encoding (section 4 of RFC 4648) loses nothing, so hiding it hides the secret and not something else |
| Encoding.DigitsAreTheAlphabet | ci/secrets.go:121-121 | the digits are the standard alphabet in its order |
| Encoding.UnpaddedIsLonger | ci/secrets.go:121-127 | both encoded forms are longer than the secret |
| Secrets.NewMasker | ci/secrets.go:115-134 | the loop collects, for each non-empty secret, itself and those of its base64 forms that differ |
| Secrets.KeysInOrder | ci/secrets.go:115-127 | secret by secret: plain, padded, unpadded, the last only if it differs, and nothing for an empty one |
| Secrets.SecretsAreHidden | ci/secrets.go:115-134 | with the keys in any order, no masked line holds a secret's base64, padded or not, nor a safe secret itself |
| Secrets.UnsafeSecretLeaks | ci/secrets.go:115-134 | for an unsafe secret, a second secret and a line that reads the first one once it is masked with the keys of the two |
| Secrets.HiddenIffSafe | ci/secrets.go:115-134 | exactly the safe secrets are hidden in every line, whatever other secrets there are and in whatever order their keys come |
| Secrets.MaskedLineLeaks | ci/secrets.go:115-134 | two given secrets and a line that reads one of them once it is masked |
| StepLog.LineWriter.Write | ci/runner.go:310-331 | keeps what was put out that of the whole lines written so far, and the unfinished line in the buffer |
| StepLog.EachLineIsShown | ci/runner.go:310-331 | lines are put out one by one, in order, without the carriage returns at their end; only an empty one is left out, and only by the writer of records |
| StepLog.MaskLine | ci/runner.go:48-53 | without secrets a line passes as it is, which is what an empty masker would do |
| StepLog.Emitted | ci/runner.go:361-373 | for either writer and every cut into writes, what is put out, prefix included, depends only on the whole output |
| StepLog.RecordsHideSecrets | ci/runner.go:310-331 | no record and no indented line of any output holds the base64 of a secret, nor a safe secret that the prefix cannot begin, nor a secret that spans lines |
| StepLog.RecordHidesIff | ci/runner.go:310-331 | exactly the secrets that are safe, or span lines, stay out of every record of every output |
| StepLog.IndentedHidesIff | ci/runner.go:351-373 | behind the indentation, exactly the ones that besides do not start with a space |
| StepLog.IndentationLeaks | ci/runner.go:351-373 | a safe secret that starts with a space, and the output whose indented line reads it |
| TailFollow.LineReader.Next | ci/spindle_logs.go:144-175 | hands out the next whole line however the file is read; lines handed out and buffer are always the bytes read |
| TailFollow.StepKeeps | ci/spindle_logs.go:87-121 | every step of the writer, the status change and the loop keeps the invariant and never takes a line back |
| TailFollow.EveryLineOnce | ci/spindle_logs.go:87-121 | in every interleaving only whole lines have been sent, once and in order; at a normal close every whole line has been, which is all of the log exactly if it ends with a newline |
| TailFollow.UnterminatedLineIsNeverSent | ci/spindle_logs.go:87-121 | a run over a log without its last newline that closes normally with nothing sent |
| TailFollow.FollowEnds | ci/spindle_logs.go:87-121 | whatever ran before, from the finish status on the loop takes a bounded number of steps and is never stuck short of its normal close |

## Left out

- The broker's clients: fan-out, replay, input from clients and the early return when the terminal refuses it (held-back bytes are then lost); only the guest-to-log path is modelled, with log writes that succeed.
- TTY exec: window-size frames share the socket without a lock there, so neither framing nor an exit frame at the end is claimed.
- ExecPiped.HostGetsEverything: assumes no socket errors and a child that is waited for; the host's trimming and lossy decoding of collected errors is not modelled.
- ExecFlow.NeverDeadlocks: assumes no socket errors before the guest closes the socket, that its last bytes still arrive then, and a child whose pipes nobody else holds open.
- Ordering.OrderJobs: asks for distinct names; what repeated names do is Ordering.FinishesIffDistinct. Iteration over a map of jobs is modelled by the sorted list the front ends build from it, and the library sort by a stable insertion sort.
- Which Jenkinsfiles parse is characterised by a grammar and not by counting braces, because an open brace between statements is skipped without being counted.
- The statements' interpretation behind the parser (stages, agents, environment).
- Arithmetic overflow of 64-bit sums in the ELF reader is an error outcome of its own, as in a build with overflow checks; a build without them wraps.
- The x86_64 branch of the unikernel preparation, its cache file and its name.
- The text of a `run` step (its substitution, working directory and environment), the local no-ops, and what an unknown step is reported as are a function carried by the decoded step; YAML decoding, orb fetching and parsing are left out, so a step starts as an already decoded node.
- Orbs.ConditionIsLogic: is for conditions that are supported throughout; short-circuiting also gives verdicts for some that are not, which Orbs.EvaluateCondition and OrbInlining.DecidesIsEvaluated state.
- strings.Replacer is modelled by what its documentation says: at each position the first key, in argument order, that matches there.
- A secret's other encodings (percent-encoding, JSON escapes), and a secret that spans lines, as it may be read across several lines of the log: what is proved is about one line at a time.
- The unterminated last line of a step's output, which the writers keep and never emit.
- The JSON encoding and timestamps of records, and masking of control records.
- Connection errors of the log stream and the wait for the file to appear.
- libkrun calls, process spawning, terminals, HTTP clients, databases and git: foreign calls or code outside these cores.
