# A model of the Zstandard codec and its proofs

This project models the parts of the codec where one thing has to behave like
another: a fast executor like a plain one, a compacted buffer like the full
history, a stream in pieces like the whole input, a rewritten command list like
the original, a fixed output slice like a growing vector.  Each of these is a
theorem over all inputs, runs or reachable states.

How the parts fit together:

- `BlockSpec` says what executing a block means (section 3.1.1.4 of RFC 8878).
  `MatchCopy`, `DecodeOutput` and `Executor` are the fast executor with its wide
  copies; `PlainExecutor` is the program's simple one.  Both are proved against
  the same meaning.
- `Repcodes` is the repeat-offset state; `Reconcile` the rewrite of a sub-block.
- `Literals`, `SequenceTables` and `CompressedBlock` turn a block's bytes into
  literals and commands and execute them.  Huffman and FSE decoding are function
  values they are given.
- `FrameFormat` parses headers; `StreamMachine` is decoding as a machine that
  takes one turn at a time on the bytes it can see; `Resumable` and `StreamRuns`
  are the theory of running it in pieces.
- `OneShotDecoder` and `StreamingDecoder` are the two decoders, each with its own
  loops and mutable state, proved to run that machine.  `FrameOutcome` says what
  each part of an input contributes to what the whole decodes to; `Compaction` is
  why the second decoder may forget.  `Xxh64` is the checksum both use.
- `FrameWalk` measures frames without decoding; `FrameAgreement` compares it with
  the decoder.
- `HeaderWriters`, `OutputBuffer` and `StreamingEncoder` are the encoder's side.
- `BlockWriters` and `WrittenFrames` say blocks and frames byte by byte and prove
  what they are read as, and `Xxh64Vectors` derives published checksums, so that
  a reader both decoders share means what the format says.
- `DictBuilder` chooses the content of a trained dictionary.

Where the code does not do what it is for:

- A skippable frame of no bytes ends the decoder's loop early, because progress is
  taken to mean bytes consumed (src/streaming.rs:1408).  The loop is modelled as
  written.  `StreamRuns.WrittenStreamStopsShort` is an input on which a stream can
  never be finished; `StreamRuns.WrittenStreamAgrees` says exactly when the loop
  agrees with decoding the whole; `StreamRuns.RepairedStreamAgrees` holds for the
  repaired rule without any condition.
- The sub-block rewrite advances the compressor's history with the value it may
  just have replaced (src/sequence.rs:4455).  `Reconcile` proves the intended
  rule, the exact condition under which the code keeps to it, and a witness
  where it does not.
- A windowed header cannot carry a content size below 256
  (src/frame.rs:454-463); `HeaderWriters.SizeIsExactFrom256` is the exact guard.
- A fixed output slice skips a backfill that reaches past its end
  (src/outbuf.rs:178); `OutputBuffer` says exactly which runs that leaves wrong.
- The comment above the sentinel distance says no valid window reaches it
  (src/sequence.rs:1261-1268), but a window descriptor can declare more.  What
  the executor does with one command is proved for every window; a whole block
  takes a window below the sentinel, or an output that ends short of it, as its
  premise, and `Executor.SentinelIsRefusedExactly` proves that premise exact.
- After a reset with output not yet taken, the output cap of the next stream also
  counts what is left over (src/streaming.rs:1572-1580).  Every rejection that
  this adds is named: `StreamingDecoding.StreamingDecoder.Overcharged`.

`dafny verify dfyconfig.toml` checks the project.

## Model

| member | source | states |
|---|---|---|
| Executor.DecodeAndExecuteSequences | src/sequence.rs:1368-1936 | The fast block executor accepts a block exactly when the block's meaning (`BlockSpec.ExecBlock`) is defined, and then leaves exactly its bytes and distances, for a window below the sentinel or an output that ends short of it |
| PlainExecutor.ExecuteSequencesWithTotalMatchBytes | src/sequence.rs:2461-2524 | The plain executor is held to the same meaning, so the two accept the same blocks and leave the same bytes and distances |
| Executor.ExecuteBlockSequences | src/sequence.rs:1446-1782 | The loop over a block's commands, in its checked and unchecked forms alike, whenever the slack test admits the unchecked one |
| Executor.ExecuteSequence | src/sequence.rs:1494-1608 | One command, for any window: resolved inline, executed wide or exactly, rejected when its distance or literals are out of reach |
| Executor.ExecuteSequenceWide | src/sequence.rs:1556-1589 | With slack ahead, literals in 16-byte units and a wide match are the exact result, overshoot and all |
| Executor.ExecuteSequenceExact | src/sequence.rs:1216-1259 | Near the end of a fixed slice, the same sequence without one byte past its end, or a rejection that is due |
| Executor.ExecuteDictionaryMatch | src/sequence.rs:1149-1192 | A match the frame cannot serve succeeds exactly when the dictionary is in reach and covers it |
| Executor.AppendMatchFromDictionaryHistory | src/sequence.rs:3090-3115 | A match that starts in the dictionary and crosses into the frame is one match of the joined history |
| Executor.CopyLiterals | src/sequence.rs:1558-1568 | 16-byte copies reproduce the literal run and read no further than the headroom |
| Executor.SentinelIsRefusedExactly | src/sequence.rs:1261-1300 | In any state of any frame the executor does with every command what it means if and only if the window is below the sentinel or the output, with all literals that are left, ends short of it |
| Executor.WindowBoundIsExact | src/sequence.rs:1261-1300 | Over all states of a frame that is the case exactly when the window is below the sentinel; otherwise a command a bitstream can hold is executed though it names no distance |
| Executor.InlineIsExecOne | src/sequence.rs:1523-1589 | The inline distance, the frame check and the cold path together decide a command as its meaning does |
| HeaderWriters.WindowsReachTheSentinel | src/sequence.rs:1261-1268 | A header can declare a window at or above the sentinel, contrary to the comment there |
| PlainExecutor.ExecutePlainSequences | src/sequence.rs:2596-2633 | The plain loop over commands gives the meaning of the commands so far at every turn |
| PlainExecutor.ExecutePlainSequence | src/sequence.rs:2677-2729 | One command of the plain loop, with or without a dictionary |
| PlainExecutor.AppendSequenceLiterals | src/sequence.rs:2789-2804 | A literal run is appended in full or refused |
| BlockSpec.ExecBlockLength | src/sequence.rs:2461-2524 | An accepted block adds its literals and its matches, within the block limit and the output cap |
| BlockSpec.OverlapInTwo | src/sequence.rs:3090-3115 | A match taken in two stretches is the match taken at once |
| BlockSpec.TailIgnoresOlder | src/sequence.rs:3020-3087 | A match depends on nothing further back than its distance |
| MatchCopy.OverlapRepeats | src/sequence.rs:3020-3087 | The byte-at-a-time copy satisfies out[i] = out[i - offset] on every byte it adds |
| MatchCopy.RepeatsIsOverlap | src/sequence.rs:3020-3087 | and that equation determines it |
| MatchCopy.CopyMatchByDoubling | src/sequence.rs:1004-1020 | Doubling the copied stretch gives the overlapping copy: the distance stays a multiple of the offset |
| MatchCopy.SpreadDistance | src/sequence.rs:1059-1100 | The table-driven gap is a multiple of the offset and at least 8 |
| MatchCopy.CopyMatchInline | src/sequence.rs:1059-1140 | For every offset of at least 1 and every length, the inline copy is the overlapping copy and writes at most 31 bytes past it |
| MatchCopy.CopyMatchExact | src/sequence.rs:3020-3087 | The exact copy, by doubling from the match, is the overlapping copy and writes nothing past it |
| Repcodes.ResolveFollowsTheFormat | src/sequence.rs:2820-2867 | The checked reader agrees with the repeat-offset rule of section 3.1.1.5 of RFC 8878, errors included |
| Repcodes.ResolveKeepsValid | src/sequence.rs:2820-2867 | Resolving keeps all three offsets non-zero and yields a non-zero distance |
| Repcodes.InlineAgreesWithChecked | src/sequence.rs:1523-1541 | The inline fast cases and the cold reader give the checked reader's distance and offsets, or the sentinel exactly where it rejects |
| Repcodes.EncodeReaderAgreesWithChecked | src/sequence.rs:2872-2903 | The encoder's infallible reader agrees wherever the checked one succeeds |
| Repcodes.RepeatOffsets.EncodeOffsetValueAndUpdate | src/sequence.rs:662-693 | Encoding a raw distance in place: the value sent and the offsets after it |
| Repcodes.RepeatOffsets.Resolve | src/sequence.rs:2820-2867 | Resolving in place: the distance and the offsets after it, unchanged on rejection |
| Repcodes.EncodeThenResolve | src/sequence.rs:662-693 | Any list of non-zero distances, encoded and then resolved from the same start, comes back, and both sides end with the same offsets |
| Repcodes.EncodeIsTheSmallestValue | src/sequence.rs:662-693 | The value written is the smallest that names the distance |
| Repcodes.DefaultDistances | src/sequence.rs:2820-2867 | Before a frame's first match the recent distances are 1, 4 and 8 |
| Repcodes.ClassifyIsTheEncodedValue | src/sequence.rs:639-657 | Classifying a distance without updating gives the value encoding would send |
| Reconcile.ReconcileSubblockRepcodes | src/sequence.rs:4432-4458 | The in-place rewrite computes the specified command list and both final histories, and keeps offset codes in step |
| Reconcile.SavedValuePreserves | src/sequence.rs:4432-4458 | If the compressor's history follows the value it chose, the rewritten list means the same distances to the lagging decoder, and both histories end right |
| Reconcile.PatchedResolves | src/sequence.rs:4439-4451 | The value written names, to the decoder, the distance the compressor meant |
| Reconcile.HarmlessIsSameStep | src/sequence.rs:4453-4456 | The code's rule and the intended one take the same step if and only if the rewrite is harmless |
| Reconcile.PreservesExactlyWhenHarmless | src/sequence.rs:4432-4458 | The code as written keeps the meaning, whatever command follows, if and only if every rewrite is harmless |
| Reconcile.HarmfulPatchShows | src/sequence.rs:4453-4456 | Any other rewrite is noticed by some command that may follow at once |
| Reconcile.AsWrittenLosesTheSecondDistance | src/sequence.rs:4453-4456 | The witness: distance 100 is sent where 200 was meant, and the intended rule sends 200 |
| Compaction.BlockOnCompacted | src/streaming.rs:1790-1835 | Any block has the same outcome on the kept bytes as on the full history: the same rejection, or the same bytes and distances |
| Compaction.MatchOnCompacted | src/streaming.rs:1775-1794 | A match has the same fate and the same bytes on both |
| Compaction.ExactlyAWindowIsNotEnough | src/streaming.rs:1775-1794 | Keeping exactly a window would leave a dictionary in reach that the frame has outrun |
| StreamRuns.WrittenStreamAgrees | src/streaming.rs:1337-1409 | For any chunking, the loop as written gives what decoding the whole gives if and only if the calls suffice to pass the empty skippable frames; otherwise the stream is refused at the end |
| StreamRuns.RepairedStreamAgrees | src/streaming.rs:1337-1355 | With a change of state counted as progress, any chunking agrees with the whole input |
| StreamRuns.StreamIsSound | src/streaming.rs:1161-1182 | Whatever a chunked stream accepts, the whole input decodes to |
| StreamRuns.WrittenStreamStopsShort | src/streaming.rs:1396-1409 | Two empty skippable frames in front of anything, pushed at once: the stream is never finished, though the whole decodes |
| StreamRuns.MachineTurnResumes | src/streaming.rs:1337-1484 | A turn taken on what was in sight can be taken up again with more input |
| StreamRuns.MachineTurnHalts | src/streaming.rs:1396-1409 | The two progress rules differ on the end of an empty skippable frame and nowhere else |
| Resumable.RunResumes | src/streaming.rs:1337-1355 | Stopping a loop of such turns and going on later is the uninterrupted loop |
| Resumable.CallPassesOneStop | src/streaming.rs:1337-1355 | One call gets past at most one place where the loop stops early, and halts right behind it |
| StreamMachine.TurnIsSound | src/streaming.rs:1337-1484 | Every turn keeps the decoder's state sound and uses input or moves down an order, so the loop ends |
| FrameFormat.FrameHeaderIsFinal | src/frame.rs:103-119 | A parsed or rejected frame header stays so when more bytes follow |
| FrameFormat.ZstandardHeaderIsFinal | src/frame.rs:488-563 | The same of a Zstandard frame's header |
| FrameFormat.HeaderNeedsItsBytes | src/frame.rs:488-563 | A header depends on no byte past its end |
| FrameFormat.BlockHeaderIsFinal | src/streaming.rs:1411-1421 | A parsed or rejected block header stays so when more bytes follow |
| OneShotDecoder.DecodeInto | src/decode.rs:632-680 | Through its stages and its loops, into a buffer that grows or a slice: accepted exactly when the machine's run accepts and its output fits, with the same bytes |
| OneShotDecoder.DecodeIntoSlice | src/decode.rs:597-607 | Into a slice: accepted exactly when the input decodes and its output fits, and then the slice starts with it |
| OneShotDecoder.DecodeAll | src/decode.rs:609-625 | Into a buffer that grows: what the input decodes to |
| OneShotDecoder.DecodeNextFrame | src/decode.rs:645-677 | One frame of either kind, and the refusal of anything behind the first if only one is wanted |
| OneShotDecoder.DecodeZstandardFrame | src/decode.rs:691-843 | One frame: its header, blocks, checksum and size, with the cursor left behind it |
| OneShotDecoder.DecodeBlocks | src/decode.rs:756-820 | The block loop reaches what the run reaches after the last block |
| OneShotDecoder.DecodeOpenedFrame | src/decode.rs:724-754 | The stages begin from the dictionary or from nothing, and the room reserved is only a hint |
| OneShotDecoder.DecodePayload | src/decode.rs:762-816 | One block of each kind, onto the whole history |
| OneShotDecoder.CompressedBlockInto | src/decode.rs:794-815 | A compressed block through literals, tables and executor, which end where the machine says |
| BlockSpec.RoomOnlyRejects | src/decode_out.rs:191-206 | A destination of limited room rejects the blocks that do not fit and changes nothing else |
| OneShotDecoder.DecodeFrameEnd | src/decode.rs:822-842 | Checksum and declared size are checked as the run checks them |
| OneShotDecoder.SkipSkippableFrame | src/decode.rs:682-689 | A skippable frame is skipped whole or refused |
| OneShotDecoder.Cursor.ReadExact | src/decode.rs:1231-1236 | The next bytes in full, or nothing and no movement |
| StreamingDecoding.StreamingDecoder.Push | src/streaming.rs:1161-1169 | A push runs the machine from where it stood on what was unread and the new bytes, whatever has been drained or dropped; nothing delivered changes |
| StreamingDecoding.StreamingDecoder.Finish | src/streaming.rs:1173-1181 | Finish runs the machine once more and accepts exactly at a frame boundary with nothing unread and something pushed |
| StreamingDecoding.StreamingDecoder.Process | src/streaming.rs:1337-1355 | The loop of turns is the machine's run |
| StreamingDecoding.StreamingDecoder.ProcessFrameHeader | src/streaming.rs:1357-1394 | The turn at a frame header, rejections included |
| StreamingDecoding.StreamingDecoder.ProcessSkippableFrame | src/streaming.rs:1396-1409 | The turn inside a skippable frame, with progress reported as the code does |
| StreamingDecoding.StreamingDecoder.ProcessBlockHeader | src/streaming.rs:1411-1421 | The turn at a block header |
| StreamingDecoding.StreamingDecoder.ProcessBlockPayload | src/streaming.rs:1423-1454 | The turn at a block, executed on the compacted buffer |
| StreamingDecoding.StreamingDecoder.ProcessFrameChecksum | src/streaming.rs:1456-1484 | The turn at a checksum, from the incremental hash |
| StreamingDecoding.StreamingDecoder.StartFrame | src/streaming.rs:1486-1562 | A frame opens exactly when dictionary, window and size allow, after the buffer is compacted |
| StreamingDecoding.StreamingDecoder.DecodeBlock | src/streaming.rs:1564-1637 | The block's outcome is the one on the full history, and it is counted and hashed |
| StreamingDecoding.StreamingDecoder.CompressedOutput | src/streaming.rs:1572-1630 | A compressed block against the buffer gives what it gives against everything decoded, unless what earlier streams left in the buffer puts it over the cap |
| StreamingDecoding.StreamingDecoder.LimitHere | src/streaming.rs:1572-1580 | The saturating count of released bytes charges exactly the leftovers of earlier streams |
| BlockSpec.ChargeOnlyRejects | src/streaming.rs:1572-1580 | Counting more bytes against the cap rejects the blocks that then exceed it and changes nothing else |
| StreamingDecoding.StreamingDecoder.FinishFrame | src/streaming.rs:1639-1652 | The frame closes only at its declared size |
| StreamingDecoding.StreamingDecoder.CompactOutput | src/streaming.rs:1706-1743 | Compaction delivers and loses nothing, moves no more bytes than it drops, and leaves at most twice the pending bytes or twice a window and one |
| StreamingDecoding.StreamingDecoder.CompactBetweenFrames | src/streaming.rs:1764-1773 | The same when a frame opens |
| StreamingDecoding.StreamingDecoder.CompactInput | src/streaming.rs:1667-1682 | The unread input and the stream position survive |
| StreamingDecoding.StreamingDecoder.Read | src/streaming.rs:1195-1204 | Reading delivers the front of the queue and leaves the rest |
| StreamingDecoding.StreamingDecoder.TakeOutput | src/streaming.rs:1216-1224 | Taking delivers the whole queue |
| StreamingDecoding.StreamingDecoder.ConsumeOutput | src/streaming.rs:1246-1254 | Consuming delivers what was looked at |
| StreamingDecoding.StreamingDecoder.StillTheSame | src/streaming.rs:1706-1743 | Draining and compacting leave the machine the decoder is at unchanged |
| StreamingDecoding.StreamingDecoder.Reset | src/streaming.rs:1187-1191 | After a finished stream the decoder is as new, with what has not been taken still ahead in the queue |
| StreamingDecoding.StreamingDecoder.HeldStandsFor | src/streaming.rs:1798-1835 | In every sound state the bytes held of the open frame are all of it or more than a window |
| StreamingDecoding.DecodeInChunks | src/streaming.rs:1161-1254 | Pushing any chunks with any reads between them, finishing and taking the rest yields what the loop as written streams |
| StreamingDecoding.DecodeBothWays | src/streaming.rs:1161-1182 | One input, decoded whole and in pieces: equal when the calls suffice, refused when they do not |
| FrameAgreement.WalkAgrees | src/frame.rs:170-253 | On every input the decoder accepts, the header walk finds the frames where the cursor does, and the bound, when it returns, is at least the decoded size |
| FrameAgreement.RunAgrees | src/frame.rs:231-253 | The same from any frame boundary, together with the empty skippable frames |
| FrameAgreement.BlocksAgree | src/frame.rs:190-207 | The walk and the decoder agree on where a frame's blocks end, and on how much they may yield |
| FrameAgreement.BlockYield | src/decode.rs:762-816 | A block yields at most its frame's maximum, and nothing without a payload |
| FrameAgreement.ReserveCoversTheFrame | src/decode.rs:732-753 | The room reserved for a declared size, limited by what the remaining input can expand to, is all an acceptable frame needs |
| FrameAgreement.StreamAgreesByTheWalk | src/streaming.rs:1396-1409 | Whether a stream gets calls enough can be told from the walk alone |
| FrameAgreement.StreamAgreesWithoutEmptyFrames | src/streaming.rs:1337-1355 | Without an empty skippable frame every chunking decodes as the whole does |
| FrameWalk.MeasureFrame | src/frame.rs:170-228 | Measuring a frame: its end, its bound and its declared size, or that it cannot be walked |
| FrameWalk.ZstandardFrameSize | src/frame.rs:191-228 | The loop over block headers, which terminates |
| FrameWalk.ForEachFrame | src/frame.rs:231-253 | Folding over every frame of the input |
| FrameWalk.DecompressBound | src/frame.rs:316-322 | The sum of the bounds of the frames the walk finds, refused exactly when there is no walk or the sum leaves 64 bits |
| FrameWalk.BoundIsTheSum | src/frame.rs:316-322 | Adding up the bounds gives exactly their sum, and fails exactly when that leaves 64 bits |
| HeaderWriters.SingleSegmentRoundTrip | src/frame.rs:374-394 | A single-segment header parses to its content size, dictionary id and checksum flag, whatever follows |
| HeaderWriters.WindowedRoundTrip | src/frame.rs:405-424 | A windowed header parses to its window, dictionary id and checksum flag |
| HeaderWriters.WindowedSizeRoundTrip | src/frame.rs:443-476 | A windowed header with a content size parses to all of them, the size raised to 256 |
| HeaderWriters.SizeIsExactFrom256 | src/frame.rs:454-463 | Such a header is right about the content size if and only if it is at least 256 |
| HeaderWriters.HeaderLengths | src/frame.rs:374-476 | No field of a header is wider than its value needs |
| HeaderWriters.HeaderIsAwaited | src/frame.rs:488-563 | While a written header is incomplete a reader waits for the rest of it |
| HeaderWriters.UnknownMagicIsRefused | src/frame.rs:107-118 | Four bytes are refused at once when they are neither the frame magic number nor one of the sixteen skippable ones |
| HeaderWriters.SpareBits | src/frame.rs:488-495 | Of a descriptor's two spare bits one must be zero and the other makes no difference |
| HeaderWriters.WriteSingleSegmentHeader | src/frame.rs:374-394 | The writer appends exactly that header |
| HeaderWriters.WriteWindowedHeader | src/frame.rs:405-424 | The writer appends exactly that header, or refuses when no window is wide enough |
| HeaderWriters.WriteWindowedHeaderWithSize | src/frame.rs:443-476 | The writer appends exactly that header, or refuses when no window is wide enough |
| HeaderWriters.EncodeWindowDescriptor | src/frame.rs:654-670 | The nested search finds the first descriptor wide enough |
| HeaderWriters.EncodedWindowIsLeast | src/frame.rs:654-670 | The declared window is the least representable one not below the request; none exists exactly when it is refused |
| HeaderWriters.EncodedWindowInverts | src/frame.rs:606-613 | Encoding inverts decoding on all 256 descriptors |
| HeaderWriters.DescriptorsIncrease | src/frame.rs:606-613 | Every descriptor declares a larger window than the one before it |
| Xxh64.DigestOfPieces | src/xxhash.rs:33-59 | However the content is cut, feeding the pieces gives the digest of the whole |
| Xxh64.Xxh64State.Update | src/xxhash.rs:33-59 | The state stands for everything fed in: whole stripes in the lanes, the rest buffered |
| Xxh64.Xxh64State.DigestNow | src/xxhash.rs:61-107 | The digest of the state is the reference digest of the content |
| Xxh64.HashOf | src/xxhash.rs:118-122 | The one-shot hash is the same digest |
| Xxh64Vectors.Xxh64OfPieces | src/xxhash.rs:33-153 | Under the program's own arithmetic: the digest of the whole, however the content is cut, and the four published values |
| Xxh64Vectors.OfNothing | src/xxhash.rs:61-143 | That arithmetic gives no bytes, with seed zero, the published XXH64 value |
| Xxh64Vectors.OfA | src/xxhash.rs:61-143 | The published value of "a": a single byte behind the stripes |
| Xxh64Vectors.OfEightLetters | src/xxhash.rs:61-143 | The published value of "abcdefgh": eight bytes behind the stripes |
| Xxh64Vectors.OfPhrase | src/xxhash.rs:61-153 | The published value of a 39-byte phrase: lanes, merges, four bytes and single bytes |
| DecodeOutput.DecodeOut.Append | src/decode_out.rs:211-231 | A write lands whole exactly when it fits |
| DecodeOutput.DecodeOut.AppendRepeated | src/decode_out.rs:253-267 | A repeated byte lands whole exactly when it fits |
| DecodeOutput.DecodeOut.EnsureRoom | src/decode_out.rs:191-206 | Room is refused only by a fixed slice that has too little |
| DecodeOutput.DecodeOut.AppendMatchFromHistory | src/sequence.rs:3020-3087 | An exact match from the output, in full or not at all |
| DictBuilder.SelectSegment | src/dict_builder.rs:570-618 | The earliest window of greatest worth in the epoch; its slots, and no others, are zeroed; the counters end all zero |
| DictBuilder.BestWindow | src/dict_builder.rs:578-611 | While the window slides its score is the summed frequency of the distinct slots it covers |
| DictBuilder.TakeIn | src/dict_builder.rs:586-592 | Letting a position in keeps score and counters right; the wrapping addition does not wrap |
| DictBuilder.LetOut | src/dict_builder.rs:593-601 | Letting a position out keeps score and counters right; the wrapping subtraction does not wrap |
| DictBuilder.ScoreOfOneMore | src/dict_builder.rs:588-592 | A position adds its slot's frequency exactly when the window has no other occurrence |
| DictBuilder.ScoreOfOneLess | src/dict_builder.rs:596-599 | A position takes its slot's frequency away exactly when no other occurrence is left |
| DictBuilder.EarliestBestIsUnique | src/dict_builder.rs:602-604 | There is only one such window |
| DictBuilder.WrappingIsExact | src/dict_builder.rs:589-598 | With a total frequency below 2^32 the wrapping operations are exact |
| DictBuilder.BuildContent | src/dict_builder.rs:626-665 | The epochs in turn each give their best window by what the visits before left; the loop terminates, and ends exactly when the content is full, ten visits running gave nothing or a segment no longer fits; the content from the tail on is what the visits copied and nothing before it is touched |
| DictBuilder.ContentIsDetermined | src/dict_builder.rs:626-665 | Only one run of visits is like that, so the content is determined |
| DictBuilder.EpochsCover | src/dict_builder.rs:536-552 | As many epochs as the dictionary has segments per pass, as long as possible, if each then has ten segments; otherwise epochs of ten segments or of everything, as many as there are; all within the positions |
| DictBuilder.WantedIsUnique | src/dict_builder.rs:536-552 | Only one number of epochs is wanted |
| DictBuilder.SixBytesDecide | src/dict_builder.rs:438-448 | With six-byte substrings the slot depends on those six bytes alone |
| DictBuilder.HashVectors | src/dict_builder.rs:438-448 | The slots of one eight-byte string under both primes |
| DictBuilder.Build | src/dict_builder.rs:464-525 | The table counts exactly the sampled positions of the training samples, or the request is refused for the stated reasons |
| DictBuilder.CountSample | src/dict_builder.rs:507-515 | One sample's positions are counted once each |
| DictBuilder.TalliesFit | src/dict_builder.rs:478-515 | The total frequency stays below the number of bytes, hence below 2^32 |
| DictBuilder.SlotIsInTable | src/dict_builder.rs:438-448 | A hash is a slot of the table |
| SequenceTables.ReadSections | src/sequence.rs:754-838 | Whatever the flags and caches went through, each block with sequences is read with the tables of the latest non-repeat declarations up to its own, or the dictionary's |
| SequenceTables.BlockReadsLatest | src/sequence.rs:754-838 | The same of the specified run, block by block |
| SequenceTables.LatestDeclarationWins | src/sequence.rs:754-838 | Each part's source at the end of a run of accepted sections is its latest non-repeat declaration, or the one it began with |
| SequenceTables.SequenceTablesState.ParseSequenceSection | src/sequence.rs:754-838 | A section is read as its bytes say, and refused when a repeat has nothing to repeat |
| SequenceTables.SequenceTablesState.DecodeSetup | src/sequence.rs:1307-1365 | The tables handed to the decoder are current, whatever the dirty and has flags went through |
| SequenceTables.PartTables.Decode | src/sequence.rs:3400-3540 | One part's declaration: what is built, and when it is refused |
| SequenceTables.PartTables.Setup | src/sequence.rs:1319-1333 | A dirty cache is rebuilt from the plain table, and a missing one refused |
| SequenceTables.RepeatNeedsATable | src/sequence.rs:3532-3538 | Repeat with neither a declaration nor a dictionary is rejected |
| Literals.LiteralsDecoder.DecodeLiteralsSection | src/literals.rs:104-127 | The literals are what the section says, within a block, and 16 readable bytes follow them on every path |
| Literals.LiteralsDecoder.DecodeRawLiterals | src/literals.rs:206-243 | Raw literals, in place or copied |
| Literals.LiteralsDecoder.DecodeRleLiterals | src/literals.rs:245-261 | A repeated literal |
| Literals.LiteralsDecoder.DecodeHuffmanLiterals | src/literals.rs:263-372 | Huffman literals with their own table or the last one |
| Literals.SectionFits | src/literals.rs:104-127 | A section has at least one byte and ends within its block |
| CompressedBlock.DecodeCompressedBlock | src/decode.rs:993-1046 | Literals, sequence tables and executor together do what the block's bytes say, given the tables of the frame so far |
| CompressedBlock.ReadCommands | src/decode.rs:1021-1032 | The commands of a section, or its refusal, a section without sequences being no longer than its header |
| CompressedBlock.ParserNeedsPayload | src/literals.rs:104-127 | The parser built from the three stages refuses an empty payload |
| BlockWriters.BlockHeaderReads | src/block.rs:41-58 | The three bytes of a block header are read as its flag, its kind and its size, whatever follows |
| BlockWriters.BlockHeaderIsWritten | src/block.rs:41-78 | Three bytes are refused exactly when their kind is the reserved one, and otherwise are what the writer writes |
| BlockWriters.WriteBlockHeader | src/block.rs:60-79 | The writer appends those bytes |
| BlockWriters.BackfillBlockHeader | src/block.rs:81-87 | A placeholder is overwritten with those bytes |
| BlockWriters.PlainLiteralsHeaderReads | src/literals.rs:374-392 | The three forms of a raw or repeated header are read as the size written |
| BlockWriters.RawLiteralsRead | src/literals.rs:206-243 | A written section of raw literals is read as those literals |
| BlockWriters.RleLiteralsRead | src/literals.rs:245-261 | A written section of a repeated literal is read as that many of it |
| BlockWriters.HuffmanHeaderReads | src/literals.rs:394-448 | Both sizes of a Huffman section are read as written, in all four formats, and refused when there are no bytes or four streams in fewer than ten |
| BlockWriters.HuffmanLiteralsRead | src/literals.rs:263-372 | A Huffman section is read as what its streams decode to, with its own table or the last |
| BlockWriters.AppendPlainLiteralsHeader | src/encode.rs:13097-13115 | The writer appends that header |
| BlockWriters.CountReads | src/sequence.rs:740-752 | Every count is read as it was written |
| BlockWriters.CountsInOrder | src/sequence.rs:740-752 | The second byte of the two-byte form and the second of the three-byte form turn fastest, from 0 and from 0x7F00 |
| BlockWriters.EncodeSequenceCount | src/sequence.rs:3573-3600 | The writer appends those bytes, and refuses what three bytes cannot count |
| BlockWriters.SectionReads | src/sequence.rs:754-838 | A written sequence section is read as its count, its three declarations and its end |
| BlockWriters.SectionRefusals | src/sequence.rs:754-838 | No sequences end the section; unassigned mode bits and codes out of range are refused |
| BlockWriters.LiteralBlockReads | src/decode.rs:993-1046 | A written block of literals alone is parsed as those literals |
| BlockWriters.SequenceBlockReads | src/decode.rs:993-1046 | A written block of literals and sequences is parsed as those literals and the commands its bitstream holds, and refused exactly when they are not as announced |
| WrittenFrames.SingleSegmentFrameDecodes | src/decode.rs:645-843 | A frame written out of stored and repeated blocks, with or without a checksum, decodes to their content |
| WrittenFrames.SmallFramesDecode | src/decode.rs:756-820 | One stored block, one repeated byte and two stored blocks, byte by byte |
| WrittenFrames.UnflaggedIsNotOver | src/decode.rs:756-820 | Without the last flag the frame is not over |
| WrittenFrames.TwelveBytesDecode | src/decode.rs:645-843 | Twelve given bytes decode to "abc" |
| WrittenFrames.PiecesDecode | src/decode.rs:756-820 | A run of stored and repeated blocks is decoded piece by piece, onto any output |
| WrittenFrames.CompressedBlockDecodes | src/decode.rs:794-815 | A compressed block is as long as its header says, is parsed and is executed |
| WrittenFrames.SkippablePasses | src/decode.rs:682-689 | A skippable frame of any of the sixteen kinds is passed over, or refused where one frame is wanted |
| WrittenFrames.TrailerReads | src/streaming.rs:561-564 | The encoder's four bytes read as the low half of the digest |
| WrittenFrames.TrailerIsAccepted | src/streaming.rs:1456-1484 | The decoder's turn at a checksum accepts what the encoder appends for the same content |
| WrittenFrames.StoredFrameDecodes | src/streaming.rs:379-571 | A frame of well-cut stored blocks under a windowed header decodes to their content |
| WrittenFrames.EncodeStored | src/streaming.rs:379-571 | Whatever is pushed, flushed and drained, what an encoder that stores its blocks writes decodes to what was pushed |
| OutputBuffer.SameExactlyWhenNothingIsStale | src/outbuf.rs:173-183 | A fixed slice that did not overflow holds the growable form's bytes, whatever they are, if and only if no skipped backfill left a stale position behind |
| OutputBuffer.CleanRunHoldsTheSame | src/outbuf.rs:154-183 | If every truncation falls outside the interior of each backfilled header, the two forms agree |
| OutputBuffer.StepAgrees | src/outbuf.rs:103-183 | Each operation keeps the lengths equal and the contents equal off the stale positions |
| OutputBuffer.OutBuf.LengthIsWritten | src/outbuf.rs:78-92 | The fixed form reports the growable one's length and overflows exactly when that exceeds capacity |
| OutputBuffer.OutBuf.Extend | src/outbuf.rs:118-129 | Extending either form in place |
| OutputBuffer.OutBuf.Resize | src/outbuf.rs:135-146 | Growing either form with a fill byte |
| OutputBuffer.OutBuf.Truncate | src/outbuf.rs:154-165 | Truncating either form |
| OutputBuffer.OutBuf.WriteAt | src/outbuf.rs:173-183 | Backfilling either form, skipped when it reaches past what is stored |
| OutputBuffer.ApplyAll | src/outbuf.rs:103-183 | Any allowed run of operations on a fixed slice leaves both forms as specified |
| StreamingEncoding.StreamingEncoder.Push | src/streaming.rs:379-413 | The pushed bytes extend the frame's content in order, the cut stays sound, and a pledged single block is held back |
| StreamingEncoding.StreamingEncoder.Flush | src/streaming.rs:508-520 | What is buffered goes out as one unflagged block |
| StreamingEncoding.StreamingEncoder.Finish | src/streaming.rs:525-571 | The last block alone is flagged, the checksum follows it, and a wrong pledge is refused |
| StreamingEncoding.StreamingEncoder.Absorb | src/streaming.rs:402-413 | Topping the buffer up to the target and encoding it when full terminates and loses no byte |
| StreamingEncoding.StreamingEncoder.EncodeBufferedChunk | src/streaming.rs:459-477 | A full buffer goes out as one block or two, each within the block size |
| StreamingEncoding.StreamingEncoder.EncodeBufferedBlock | src/streaming.rs:711-788 | The front of the buffer becomes a block behind the retained history |
| StreamingEncoding.StreamingEncoder.CompactFrame | src/streaming.rs:811-814 | Compaction keeps the history, drops something, and keeps every position's phase unless the cycle is as wide as the whole buffer |
| StreamingEncoding.DropIsSafe | src/streaming.rs:902-917 | What a full buffer drops leaves between the history and the history and its slack |
| StreamingEncoding.AlignedDropIs | src/streaming.rs:902-917 | A drop is whole cycles, or everything when there is no whole cycle |
| StreamingEncoding.BlockSizeIsLargest | src/streaming.rs:200-236 | The block size is the largest that fits the window, the pledge and the requested size |
| StreamingEncoding.HistoryIsDeclarable | src/streaming.rs:195-201 | The history is as asked for, up to what a header may declare |
| StreamingEncoding.CapacityIsBounded | src/streaming.rs:225-236 | The frame buffer's capacity is at most three windows and two blocks |
| StreamingEncoding.EncodeByRequests | src/streaming.rs:379-571 | Any run of pushes, flushes and drains, then a finish: the blocks concatenate to what was pushed, none exceeds the block size, the last alone is flagged, a pledge of one block never flushed goes out as one, and what was drained is the frame |
| StreamingEncoding.StreamingEncoder.CompactOutput | src/streaming.rs:683-696 | The queue is unchanged and no more is moved than was consumed |
| StreamingEncoding.StreamingEncoder.Read | src/streaming.rs:637-647 | Reading delivers the front of the queue |
| StreamingEncoding.StreamingEncoder.ConsumeOutput | src/streaming.rs:666-674 | Consuming delivers what was looked at |
| StreamingEncoding.StreamingEncoder.TakeOutput | src/streaming.rs:592-600 | Taking delivers the whole queue |
| StreamingEncoding.StreamingEncoder.Reset | src/streaming.rs:575-580 | Another frame begins behind what is still in the queue |

## Left out

- FSE, Huffman and bitstream decoding, match finders, level tables, block splitting heuristics and the block encoder: function values that the modelled code is given.
- Executor.DecodeAndExecuteSequences: takes a window below the sentinel or an output that ends short of it, and a shortest match of 3; a codec's bitstream reader is taken to refuse shorter matches.
- OneShotDecoder.DecodeInto: takes a cap on the window below the sentinel, as the default options have, or a slice that is shorter by a block.
- The two executors check limits in different orders, so acceptance and results are compared and kinds of error are not.
- StreamingDecoding.StreamingDecoder.CompressedOutput: calls the block parser and a block's meaning as functions; the stages themselves run in the one-shot decoder.
- What a caller can still read from a decoder after it reported an error: a rejected block leaves the model's buffer as it was.
- StreamingDecoding.StreamingDecoder.Push: with leftovers of an earlier stream in the queue, an acceptance is exact and a rejection is the machine's or an overcharge; which of the overcharged inputs still pass depends on what is drained between frames.
- 64-bit counters do not saturate or wrap, apart from the frame walk's bound, which does both as the code does.
- Allocation failures, prefetching, SIMD selection, alignment, profiling and tracing.
- The boxed frame state that is recycled from frame to frame is a value here, and the checksum an object that is reset.
- Encoding cannot fail: a block always encodes to some bytes, which depend on the blocks before it.
- StreamingEncoding.StreamingEncoder.CompactFrame: says what happens to the buffer and its positions; re-keying the match finders to them is not part of this model.
- The training split point is given as a number of samples; choosing it is floating-point arithmetic, and measuring a dictionary depends on the encoder.
- DictBuilder.HashToIndex: follows the two hash formulas; nothing is claimed about their quality.
- FrameAgreement.WalkAgrees: the decoded size is taken to fit 64 bits, as any output held in memory does.
- FrameAgreement.ReserveCoversTheFrame: takes the block parser to refuse an empty payload, which CompressedBlock.ParserNeedsPayload proves of the parser modelled here.
- The input compaction's cost, whose 4096-byte rule is not amortised the way the output's is.
- Skippable-frame writing, declared sizes of whole inputs, and the I/O adapters.
