# Verified models of Baker's core components

Baker moves log lines from an input through filters to outputs and an uploader. This project
models its seven components with algorithmic or protocol content and proves what they keep over
every run. The codecs, the network, the file system and clocks are parameters or free choices.

| files | component |
|---|---|
| `frames`, `bits`, `bitmap`, `location`, `coldbucket`, `coldcache`, `decompressor`, `flushing`, `buffercache` | the two-tier buffer cache, in bytes, bits and maps, updated in place |
| `cachemodel`, `cacheproofs`, `cacheledger`, `cachekeys`, `cachestrays`, `cacheonce`, `cacheflushes`, `cachereplay` | the same cache on values, its invariant, conservation and what each key holds over runs, what a Put flushes and when nothing, when a flush calls back once a key, and the proof that the cache in bytes refines it |
| `topology`, `topologysafety`, `topologyledger`, `topologyruns`, `topologyorder`, `topologyuploads`, `filterloop` | the pipeline of goroutines and channels as a transition system, and the loop of one filter |
| `fields`, `logline` | the record: a lazily indexed line with a sparse overlay of writes |
| `linetext`, `chunker` | cutting a stream into blocks of whole lines with pooled buffers |
| `splits`, `splitwriter` | splitting a file into parts at newlines |
| `filewriter` | files rotated by time and size, one worker per name |
| `words`, `wrapstring` | wrapping a help text |
| `clausefilter` | compiling and evaluating boolean s-expressions |
| `bytes` | bytes and folds over maps |

Components that update state in place are classes whose methods are proved against functions or
ghost state. Goroutines are steps taken in any order. `nat` and `int` are unbounded; where the
program's integer width matters (32-bit prefixes and locations, 64-bit words, `int32` positions,
the 8-bit write counter) the width is written out.

Assumptions: decompressing what was compressed gives it back; the flush callback and the filters
do not keep or change the buffers they are given; a record's text is shorter than 2^31 bytes;
reads return at least one byte; generated paths are new; help texts are valid UTF-8 (a character
of an invalid text would be replaced by U+FFFD); `bufsize` of a split writer is positive
(`New` does not check it, and with 0 the block scan would not move); the parts a split writer finds
are those an earlier writer with the same `maxsize` left.

## Where the code and its documentation disagree

- `findFirstZero64` is said to start from the least significant bit (pkg/buffercache/bitmap.go:25).
  It returns the most significant zero. Both agree exactly in words with no two zeros:
  `Bitmap.FirstZeroIsLeastIffOnly`; in an empty word they do not: `Bitmap.EmptyWordFirstZero`.
- `OnFlush` is said to be called once per key with the whole buffer for that key
  (pkg/buffercache/cache.go:40-42). A flush does so exactly when no cell holds a block that no key leads
  to: `CacheOnce.FlushOnceAKeyIff`. Such a cell appears when promoting a cold block flushes the full hot
  part: the block goes back to a cold cell and its location is then overwritten with "hot", so its key's
  later blocks are flushed without it. Put makes one only then, and then always if there was none:
  `CacheStrays.PutStrays`. A run without such a promotion keeps the promise:
  `CacheOnce.NeverOvertakenOnceAKey`; `CacheOnce.OnceAKeyFails` is a run of five calls that breaks it.
  Nothing is lost: the block is still flushed, once.
- A hot flush is said to interleave the blocks with newlines (pkg/buffercache/cache.go:198-199). It
  emits one newline more, so the two agree only for no blocks: `Frames.RenderInterleaved`. A cold
  flush emits the block alone.
- 254 fields are said to be writable (logline.go:55-57). `Set` accepts 255, and then the 8-bit loop
  of `ToText` never ends: `LogLines.WriteTooMany`, `LogLines.ByteLoopDiverges`.
- `Parse` is said to find the next newline (logline.go:109). It takes the whole text as one line, so
  the fields are those of the first line exactly when there is no newline:
  `LogLines.ParsesFirstLineIff`; `LogLines.TwoLinesOneField` is a text of two lines.
- The help of ClauseFilter says that `(and X)` matches anything (filter/clausefilter.go:48-49). The
  code compiles it to X: `ClauseFilters.OneOperand`, `ClauseFilters.AndOneRejects`.
- A split writer is said to leave files of at most `maxsize` bytes
  (pkg/splitwriter/split_writer.go:24-27). That is so exactly when every line of the text, its newline
  included, has at most that many: `Splits.PartsFitIff`, carried to the files by
  `SplitWriters.Session`; `Splits.OversizedPart` is a text for which it fails.

## Model

| member | source | states |
|---|---|---|
| CacheReplay.ReplayAndFlush | pkg/buffercache/cache.go:144-178 | after any calls that do not panic and a final Flush, the callback received every buffer put, as often as it was put, and nothing is resident; every call got the decoded text of one event |
| CacheReplay.Replay | pkg/buffercache/cache.go:96-178 | for any calls on a new cache the imperative cache does what the model does, and panics exactly when it does |
| CacheLedger.RunConserves | pkg/buffercache/cache.go:150-354 | over every run, for every text: times emitted plus times resident equals times put, whatever promotions and flushes happen |
| CacheLedger.RunThenFlushEmitsAll | pkg/buffercache/cache.go:173-178 | a final flush emits every buffer as often as it was put |
| CacheLedger.FlushLeavesNothing | pkg/buffercache/cache.go:173-178 | after Flush no text is resident |
| CacheLedger.SmallBuffersNeverPanic | pkg/buffercache/cache.go:276-280 | if every stored payload plus 4 is at most MaxBufferLength, no run panics |
| CacheLedger.PutInColdConserves | pkg/buffercache/cache.go:249-271 | cold insertion, with all flushes it triggers, adds exactly the block to emitted plus resident |
| CacheLedger.PutInHotConserves | pkg/buffercache/cache.go:276-340 | the same for hot insertion |
| CacheLedger.PutConserves | pkg/buffercache/cache.go:150-171 | the same for Put, a promotion included |
| CacheProofs.PutKeepsInvariant | pkg/buffercache/cache.go:150-171 | Put panics exactly on the blocks a caller can see to be too long, and otherwise keeps: hot location iff hot buffer, cold locations point at occupied cells, no two keys share one, the capacity counter is the sum of the buffers and bounded, each buffer bounded |
| CacheProofs.PutInColdKeeps | pkg/buffercache/cache.go:249-271 | cold insertion fails only when it ends in a hot insertion that is too long (never for want of a free cell after a flush) and settles the key |
| CacheProofs.PutInHotKeeps | pkg/buffercache/cache.go:276-340 | hot insertion fails exactly for a block over the limit and settles the key; the mutual recursion ends |
| CacheProofs.MoveToHotKeeps | pkg/buffercache/cache.go:344-354 | promotion fails exactly when the old block is over the limit, and keeps the invariant for all other keys |
| CacheProofs.FlushKeepsInvariant | pkg/buffercache/cache.go:173-187 | Flush keeps the invariant |
| CacheProofs.InitInvariant | pkg/buffercache/cache.go:96-142 | a new cache satisfies the invariant |
| CacheStrays.PutStrays | pkg/buffercache/cache.go:282-290 | unless it promotes a block that no longer fits the hot capacity, Put makes no cell one that belongs to no key; from a state in which every cell belongs to a key it leaves such a cell if and only if it does promote one |
| CacheStrays.OvertakenPut | pkg/buffercache/cache.go:344-354 | in that case the old block sits in an unreferenced cell and the new one starts a hot buffer without it |
| CacheStrays.TwoBlocksApart | pkg/buffercache/cache.go:344-354 | four calls after which the two blocks of one key are in two places, one of them a cell that belongs to no key |
| CacheFlushes.PutDoes | pkg/buffercache/cache.go:150-171 | what a Put calls back with, by the limits and free cells it meets: for a new key the blocks of the bucket that takes it if that is full, or all hot buffers if no bucket takes it and the hot part would get too large; for a hot key all hot buffers past the one limit, the buffer of that key past the other; for a cold key, after its block was moved, the same; and otherwise nothing, with the block in a free cell or behind those of its key and all else unchanged |
| CacheFlushes.PutEmits | pkg/buffercache/cache.go:150-171 | a Put calls back if and only if the block does not fit where it goes |
| CacheFlushes.ColdPutDoes | pkg/buffercache/cache.go:249-271 | a bucket is flushed if and only if all its cells are busy; with a free cell the block is put there and nothing else changes, else the bucket is emptied, its keys forgotten, and the block alone in it |
| CacheFlushes.LargePutDoes | pkg/buffercache/cache.go:249-291 | a block no cell takes starts a hot buffer; the hot part is flushed, and its keys forgotten, if and only if it would get too large |
| CacheFlushes.HotPutDoes | pkg/buffercache/cache.go:276-340 | past the capacity of the hot part all hot buffers are emitted, past the length of one buffer that of the key alone, else nothing and the block follows those of its key |
| CacheFlushes.OvertakenDoes | pkg/buffercache/cache.go:282-290 | promoting a block that does not fit the hot part emits all hot buffers, and the new block is then alone in the hot part |
| CacheFlushes.RunQuietIff | pkg/buffercache/cache.go:144-171 | a run of Puts calls back nothing if and only if every block fits, and then every key holds all that was put under it, in order |
| CacheKeys.RunRecent | pkg/buffercache/cache.go:150-354 | in every state of every run and for every key: its hot buffer is a final piece of the blocks put under that key, in order, and its cold cell holds the last of them |
| CacheKeys.PutHeld | pkg/buffercache/cache.go:150-171 | after Put the key holds the new block, alone or behind all that was found by its location, and what other keys hold is as it was or flushed |
| CacheKeys.PutInColdHeld | pkg/buffercache/cache.go:249-271 | cold insertion leaves the key with the new block alone, and no other key with anything new |
| CacheKeys.PutInHotHeld | pkg/buffercache/cache.go:276-340 | hot insertion leaves the key with the new block alone or appended, and no other key with anything new |
| CacheKeys.MoveToHotHeld | pkg/buffercache/cache.go:344-354 | promotion leaves the key with its old block in a hot buffer or with no buffer, and no other key with anything new |
| CacheOnce.FlushOnceAKeyIff | pkg/buffercache/cache.go:40-42 | a Flush calls back once for each key, with everything its location leads to, if and only if every occupied cell belongs to a key |
| CacheOnce.RunOnceAKeyIff | pkg/buffercache/cache.go:40-42 | the same after every run, and what is handed over for a key are the latest blocks put under it |
| CacheOnce.NeverOvertakenOnceAKey | pkg/buffercache/cache.go:282-290 | after a run in which no Put promotes a block that no longer fits the hot capacity, a Flush calls back once for each key |
| CacheOnce.OnceAKeyFails | pkg/buffercache/cache.go:40-43 | five calls, the last a Flush, that hand over the two blocks of one key by two calls, one hot and one cold |
| BufferCaching.BufferCache.Put | pkg/buffercache/cache.go:150-171 | returns normally exactly when the model accepts the stored block; then the state read off the bytes, bits and maps is the model's, and what was called back is what the limits and free cells call for |
| BufferCaching.BufferCache.PutInCold | pkg/buffercache/cache.go:249-271 | refines cold insertion, first try, bucket flush and second try |
| BufferCaching.BufferCache.PutInHot | pkg/buffercache/cache.go:276-340 | refines hot insertion with its two flushes; terminates as the hot capacity in use decreases |
| BufferCaching.BufferCache.MoveToHotCache | pkg/buffercache/cache.go:344-354 | refines promotion, the overwritten location included |
| BufferCaching.BufferCache.Flush | pkg/buffercache/cache.go:173-178 | refines Flush: cold cells in order, then hot keys, then no locations |
| BufferCaching.BufferCache.FlushHotCache | pkg/buffercache/cache.go:180-187 | every hot buffer is emitted once, the hot part is empty, hot locations are gone |
| BufferCaching.BufferCache.FlushColdCache | pkg/buffercache/cache.go:241-245 | every occupied cell of every bucket is emitted once and freed |
| BufferCaching.BufferCache.EvictHotKey | pkg/buffercache/cache.go:312-319 | the buffer of one key is emitted, and its location, buffer and length are taken off |
| Flushing.Flusher.FlushBlocks | pkg/buffercache/cache.go:200-239 | emits each block of the frames, decompressed where needed, each followed by a newline |
| Flushing.Flusher.Unframe | pkg/buffercache/cache.go:207-235 | the loop over frames reads back every block in order and keeps what was already written when the buffer grows |
| Flushing.Flusher.FlushHot | pkg/buffercache/cache.go:180-183 | one event for each hot key, in whatever order the keys come |
| Flushing.Flusher.FlushCold | pkg/buffercache/cold.go:98-106 | one event for each block of a bucket, emitted without a newline |
| Flushing.Flusher.DecompressAndFlush | pkg/buffercache/cache.go:189-196 | the callback receives the plain text of a cold block |
| Flushing.Flusher.OnFlush | pkg/buffercache/cache.go:137-140 | the callback is called and counted |
| Flushing.NextFrame | pkg/buffercache/cache.go:211-223 | length and compression bit of a frame as they were written |
| Frames.RenderInterleaved | pkg/buffercache/cache.go:198-238 | a hot flush emits the blocks interleaved with newlines and one newline more; it equals the interleaving if and only if there are no blocks |
| Frames.AppendFrame | pkg/buffercache/cache.go:327-339 | appending a frame appends its block to the blocks a buffer holds |
| Frames.FrameReadsBack | pkg/buffercache/cache.go:211-230 | the first frame of a buffer gives back the block that was framed, compressed or not |
| Frames.PrefixRoundTrip | pkg/buffercache/cache.go:298-304 | a length and a compression bit survive the 32-bit prefix exactly when the length is below 2^31, and then the bit is the top one |
| Frames.Uint32Inverse | pkg/buffercache/cold.go:127-140 | four bytes give back the 32-bit number, the lowest first |
| Frames.BlocksLength | pkg/buffercache/cache.go:307-339 | a buffer is as long as its blocks and their prefixes |
| Frames.Codec.StoredIsLossless | pkg/buffercache/cache.go:151-158 | the stored block decodes to the buffer put; it is compressed if and only if compression is on and shrinks the buffer, else it is the buffer |
| Decompression.Decompressor.Uncompress | pkg/buffercache/compressor.go:87-100 | the growth loop ends, the plain text is at the position asked for, and what was before it is kept |
| Decompression.Decompressor.Grow | pkg/buffercache/compressor.go:102-106 | the buffer gets larger and keeps its contents |
| Decompression.Decompressor.CopyAt | pkg/buffercache/cache.go:217-225 | the copy loop ends, copies the block whole and keeps what was before it |
| Decompression.Decompressor.CopyByte | pkg/buffercache/compressor.go:124-130 | writes one byte, growing if needed, and keeps what was before it |
| ColdBucket.Bucket.Put | pkg/buffercache/cold.go:114-132 | stores the block in the first free cell and changes no other; fails exactly when all cells are busy |
| ColdBucket.Bucket.Get | pkg/buffercache/cold.go:138-145 | returns what the cell holds |
| ColdBucket.Bucket.ClearCell | pkg/buffercache/cache.go:350-351 | removes the one cell |
| ColdBucket.Bucket.Flush | pkg/buffercache/cold.go:98-110 | yields the occupied cells in order, each once, and empties the bucket |
| ColdBucket.Bucket.NumBuffers | pkg/buffercache/cold.go:149-155 | the number of occupied cells |
| ColdBucket.StoreCell | pkg/buffercache/cold.go:119-130 | writing a frame at a cell's offset changes the cell map in that cell only |
| ColdCaching.ColdCache.SmallestFitBucket | pkg/buffercache/cold.go:48-58 | the first bucket large enough for the block and its prefix, none if there is none |
| CacheModel.SmallestFitIsTightest | pkg/buffercache/cold.go:32-58 | with sorted sizes that bucket wastes the least |
| Bitmap.FindFreeCell | pkg/buffercache/bitmap.go:14-23 | a free cell of the first word that has one, none exactly when all are busy |
| Bitmap.FindFirstZero64 | pkg/buffercache/bitmap.go:27-37 | the most significant zero bit, none exactly for the word of ones |
| Bitmap.FirstZeroIsLeastIffOnly | pkg/buffercache/bitmap.go:25-37 | the search finds the least significant zero, as the comment says, if and only if no two bits of the word are zero |
| Bitmap.EmptyWordFirstZero | pkg/buffercache/bitmap.go:25-37 | in an empty word the search finds bit 63 |
| Bitmap.SetBit | pkg/buffercache/bitmap.go:40-45 | adds one cell to the busy ones |
| Bitmap.ClearBit | pkg/buffercache/bitmap.go:48-53 | takes one cell off the busy ones |
| Bitmap.CountBusy | pkg/buffercache/cold.go:149-155 | the ones of the words are the busy cells |
| Locations.PackRoundTrip | pkg/buffercache/location.go:24-38 | bucket and cell survive packing if and only if the bucket is below 128 and the cell below 2^24 |
| Locations.RemoveCold | pkg/buffercache/location.go:50-60 | removes the locations in one bucket and no others |
| Locations.RemoveHot | pkg/buffercache/location.go:63-69 | removes the hot locations and no others |
| TopologyRuns.RunDelivers | topology.go:230-314 | in every interleaving no send or close hits a closed channel and the record of shard value v goes to output v modulo their number, so that two records reach the same output if and only if their shard values are congruent; when Wait returns all channels are closed, every record that left the filter chain was received exactly once, every line was counted once, as malformed, invalid or chained as it was judged, every block was given back, and without a stop the whole input was taken |
| TopologyRuns.RunSafe | topology.go:230-314 | the invariant and the balance of records, lines of each kind and blocks hold in every state of every run, no channel holds more than its size, and each holds records of its own residue only |
| TopologyRuns.NoEndlessRun | topology.go:302-314 | no run has infinitely many steps |
| TopologyRuns.CanFinish | topology.go:302-314 | from every reachable state the pipeline can reach its end, and once stopped it can do so without any more input |
| TopologyRuns.Delivered | topology.go:302-348 | at the end the outputs hold the records of the lines that were sent, as a multiset, and each total is the number of lines of its kind |
| TopologyOrder.RunInOrder | topology.go:250-399 | with one filter goroutine, and no output channel shared, each output has at any time received a first part of the records routed to it, in the order of the input's lines, and all of them when Wait returns |
| TopologyOrder.AllSentTo | topology.go:330-348 | a single output is sent every record |
| TopologyOrder.OrderNeedsOneFilter | topology.go:263-270 | with more filter goroutines than one, for any two lines with different records for one channel there is a run in which an output receives the later record and not the earlier |
| TopologySafety.Progress | topology.go:230-314 | every state before the end has an enabled step other than a stop request, and after one a step that takes no input |
| TopologySafety.FilterProgress | topology.go:330-348 | a filter blocked on a full output channel implies an output that can go on |
| TopologySafety.OutputProgress | topology.go:250-263 | an output with something to read, or a closed channel, can go on |
| TopologySafety.StepKeeps | topology.go:302-399 | every step keeps: stages close in order, gone filters leave an empty closed input channel, channels only hold records routed to them, and whatever the filters write into a record, those in the pool are as new |
| TopologySafety.WaiterKeeps | topology.go:302-314 | shutdown closes each channel once and only after its senders are gone |
| TopologyLedger.ParseMoves | topology.go:367-388 | a line parsed into a record of the pool, whatever that record held before, is judged, counted and sent as if parsed into a new one |
| TopologyLedger.StepBalanced | topology.go:330-399 | every step keeps records, lines and blocks in balance |
| TopologyLedger.StepWorks | topology.go:230-399 | every step leaves less work, or as much and fewer uploads to hand over |
| TopologyRuns.ShardsAre | topology.go:342-347 | with sharding a record is in the channel, or came to the output, that its shard value selects modulo their number; without, all records go through channel 0 |
| TopologySafety.InputWaitsIff | topology.go:272-279 | the input waits if and only if its channel is full |
| TopologySafety.SenderWaitsIff | topology.go:340-347 | a filter with a record to send waits if and only if the channel the shard value selects is full |
| TopologySafety.IdleWaitsIff | topology.go:350-353 | a filter between two blocks waits if and only if its channel is empty and open |
| TopologySafety.OutputWaitsIff | topology.go:250-263 | an output with nothing to upload waits if and only if the channel it reads is empty and open |
| TopologyUploads.RunUploads | topology.go:231-263 | every path an output produced was uploaded or waits to be, as often as it was produced; when Wait returns all were uploaded |
| TopologyUploads.OneOutputInOrder | topology.go:231-263 | the paths of a single output are uploaded in the order it produced them |
| FilterLoop.FilterChain.RunBlob | topology.go:353-398 | the loop over a block's bytes counts each line once and sends the records of the chained lines in order, each judged as on a new record although records are reused |
| FilterLoop.FilterChain.Process | topology.go:367-388 | one line: parsed into a pooled or new LogLine, counted in exactly one total, malformed if and only if it is empty or has too many separators, else invalid or chained as validation has it on the fields of the line alone, its record cleared and pooled only after the filters wrote what they liked; the pooled records stay as new and share no memory |
| FilterLoop.FilterChain.Examine | topology.go:367-388 | what validation and filters see after Parse are the fields of the line alone, and the verdict is that of a new record |
| FilterLoop.FilterChain.TakeRecord | topology.go:367-368 | a record as new, shared with nobody |
| FilterLoop.FilterChain.Finish | topology.go:213-217 | after any writes by the filters the record is cleared before it is pooled |
| FilterLoop.FilterChain.CutLine | topology.go:356-365 | cuts off the first line |
| FilterLoop.EachCountedOnce | topology.go:367-388 | malformed, invalid and chained lines add up to the lines of the block |
| FilterLoop.InputCountsLines | topology.go:353-392 | for a block of whole lines they add up to the newlines its input counted |
| LogLines.LogLine.Parse | logline.go:118-147 | accepts a text exactly when it has fewer than N separators, or N and the last byte is one; then the fields are the pieces of the trimmed text |
| LogLines.LogLine.Get | logline.go:77-91 | what was written, else the piece of the text, else nil |
| LogLines.LogLine.Set | logline.go:94-105 | changes one field and no other; fails exactly for a 256th field |
| LogLines.LogLine.ToText | logline.go:152-220 | the old buffer followed by the parsed text if nothing was written, else by the fields as far as the last one written or parsed |
| LogLines.LogLine.LastFieldIff | logline.go:172-194 | the last field serialized is the largest standard field that was written or parsed, the first if there is none |
| LogLines.LogLine.SerialWidth | logline.go:172-219 | with separator-free fields the serialization splits into the fields up to that one, no more and no fewer |
| LogLines.LogLine.AppendFields | logline.go:210-219 | the field loop appends the joined fields |
| LogLines.LogLine.Clear | logline.go:223-225 | back to the state after construction |
| LogLines.LogLine.SerialReparses | logline.go:118-220 | parsing the serialization succeeds and gives every standard field back if and only if no standard field contains the separator |
| LogLines.LogLine.PathsAgree | logline.go:152-220 | when only custom fields were written the field-by-field path gives the parsed bytes |
| LogLines.LogLine.NothingPastLast | logline.go:173-197 | no field past the last one serialized has a value |
| LogLines.LogLine.Copy | logline.go:238-281 | the copy has the same custom fields, and the same standard fields if and only if none of them contains the separator |
| LogLines.LogLine.CopyCustom | logline.go:264-270 | all custom fields are copied and standard fields kept |
| LogLines.ParsesFirstLineIff | logline.go:109-147 | for a separator other than the newline, the fields after parsing a text are those of its first line if and only if the text has no newline |
| LogLines.TwoLinesOneField | logline.go:109-147 | two lines separated by a newline are parsed as one field |
| LogLines.WriteTooMany | logline.go:93-105 | 255 different fields can be written |
| LogLines.ByteLoopDiverges | logline.go:197-202 | the loop with an 8-bit counter never ends if and only if its bound is 255 |
| FieldText.AcceptedIff | logline.go:118-147 | acceptance, stated on pieces, in terms of the number of separators |
| FieldText.ReparseIff | logline.go:118-220 | joined pieces are accepted and split into the same pieces if and only if no piece contains the separator |
| FieldText.SplitOfJoin | logline.go:118-220 | splitting undoes joining of separator-free pieces |
| FieldText.JoinOfSplit | logline.go:118-220 | joining undoes splitting |
| Chunkers.Chunker.Run | input/inpututils/compressedstream.go:306-368 | for any stream, reads, stops and read errors at any point, the end included: blocks are whole lines, undoing the swaps of huge lines gives a prefix of the stream ending with a line, the lines sent are its lines, in its order unless one is longer than MAX_LINE_LENGTH, the counter is its newlines; uncut, the prefix is everything if and only if the stream ends with a newline |
| Chunkers.Chunker.NextBlock | input/inpututils/compressedstream.go:306-366 | one turn sends the next bytes of the stream in whole lines and progresses, or reports why not |
| Chunkers.Chunker.EndLine | input/inpututils/compressedstream.go:339-363 | reads exactly up to the end of the line under way, and not at all if there is none |
| Chunkers.Chunker.Complete | input/inpututils/compressedstream.go:347-363 | completes the line in place if it fits the buffer, and only if it does not sends it first, alone |
| Chunkers.Chunker.Get | input/inpututils/compressedstream.go:307-307 | a buffer of full length that nobody else uses |
| Chunkers.Chunker.Send | input/inpututils/compressedstream.go:212-217 | queues the block and counts its newlines |
| Chunkers.Chunker.FreeMem | input/inpututils/compressedstream.go:371-374 | a block given back is in the pool, at full length |
| Chunkers.Chunker.Interfere | input/tcp.go:131-134 | however blocks are received and given back meanwhile, those in the channel are those sent and not received, in order, and they and every block not yet given back still hold what was sent in them |
| Chunkers.Chunker.Take | input/tcp.go:124-129 | the block received is the one sent next, unaltered, and stays so until it is given back |
| Chunkers.SameLines | input/tcp.go:146-205 | the multiset of lines sent is that of the text, none cut |
| Chunkers.SwappedIff | input/inpututils/compressedstream.go:339-363 | lines are sent out of order if and only if they do not fit the buffer together, which needs a line longer than MAX_LINE_LENGTH |
| Chunkers.ShortInOrder | input/inpututils/compressedstream.go:306-368 | without such a line the blocks, one after the other, are the text |
| Chunkers.HugeIsProper | input/tcp.go:187-201 | the block sent ahead is one line longer than expected, and what is left are whole lines |
| LineText.SplitOfRender | topology.go:356-365 | lines written with a newline after each are read back the same |
| LineText.RenderOfSplit | topology.go:356-365 | whole lines are split and put together without a change |
| SplitWriters.Session | pkg/splitwriter/split_writer.go:28-128 | after opening, writing and closing, the files, one unnumbered or several numbered from 1, hold the greedy split of all that was ever written, as if there had been one session, and all of them fit in maxsize if and only if every line of it does |
| SplitWriters.SplitWriter.Close | pkg/splitwriter/split_writer.go:80-128 | the last file is replaced by its greedy split and no other changes; the loop ends |
| SplitWriters.SplitWriter.FindSplitPoint | pkg/splitwriter/split_writer.go:133-170 | the backwards scan, overlapping last block included, finds one past the last newline of the first maxsize bytes, 0 exactly when there is none |
| SplitWriters.LastNewline | pkg/splitwriter/split_writer.go:143-150 | the forward search of a block ends at its last newline |
| SplitWriters.SplitWriter.DoSplit | pkg/splitwriter/split_writer.go:172-281 | the first split makes parts 1 and 2 and removes the file, later ones shorten the last part and add one; contents are kept |
| SplitWriters.SplitWriter.constructor | pkg/splitwriter/split_writer.go:59-74 | opens the last part there is |
| SplitWriters.New | pkg/splitwriter/split_writer.go:28-46 | refuses exactly a block larger than the parts, touching nothing |
| Splits.GreedyIff | pkg/splitwriter/split_writer.go:80-128 | the greedy split is the only one whose parts concatenate to the text, non-final parts being the longest prefix of lines that fits and the final one fitting or having no newline in its first maxsize bytes |
| Splits.GreedyAppend | pkg/splitwriter/split_writer.go:59-128 | splitting the last part again after appending equals splitting the longer text |
| Splits.PartsFitIff | pkg/splitwriter/split_writer.go:24-27 | all parts have at most maxsize bytes if and only if every line of the text, its newline included, has |
| Splits.OversizedPart | pkg/splitwriter/split_writer.go:24-27 | a text left in one part longer than maxsize |
| Splits.CutIsLongestFit | pkg/splitwriter/split_writer.go:133-170 | the cut is at a length if and only if that is the longest prefix of lines that fits |
| Splits.CutIsFinal | pkg/splitwriter/split_writer.go:133-170 | there is no cut if and only if the part fits or has no newline in its first maxsize bytes |
| FileWriters.FileWriter.Run | output/filewriter.go:167-218 | whatever ticks come between lines, before them or after the last, each name's uploaded files hold the lines of the records with that name, in order, complete; a failing worker creation ends the loop and still closes the others |
| FileWriters.Worker.OnLine | output/filewriter.go:348-368 | adds the line and keeps: files created are the uploaded ones and the current one, uploads are distinct and complete, none empty under DiscardEmptyFiles; the file is uploaded and replaced if and only if RotateSize is not zero and its counter is then past it |
| FileWriters.Worker.OnTick | output/filewriter.go:345-346 | a tick uploads the current file and starts the one at the new path, unless it is empty and empty files are discarded, when nothing changes; it keeps all of the above |
| FileWriters.Worker.Rotate | output/filewriter.go:275-305 | uploads the closed file, with its lines, and starts a new one, unless it is empty and empty files are discarded, when nothing changes |
| FileWriters.Worker.Close | output/filewriter.go:322-341 | at the end every file there is was uploaded once; the last one is removed if it is empty and DiscardEmptyFiles is set, and uploaded otherwise |
| FileWriters.UploadedText | output/filewriter.go:348-360 | the uploaded files, one after the other, are the bytes of the lines with newlines |
| Wrapping.WrapString | help_text.go:191-250 | the loop with three buffers computes the wrapping that the lemmas below are about |
| Wrapping.WrapCorrect | help_text.go:191-250 | the same words in the same order; at no letter of a word was there a reason to break its line: what was read of the word fitted there, or filled a line by itself; so every line is at most lim bytes wide or holds a word of at least lim bytes |
| Wrapping.BreaksNeeded | help_text.go:200-247 | a paragraph is its output lines with white space dropped between them; at each break the line, the white space and the next word together exceed lim, and did so when what was read of the word was still narrower than lim; the tail is dropped only if it does not fit |
| Wrapping.NarrowUnchanged | help_text.go:200-244 | a text whose lines are at most lim bytes wide is returned unchanged |
| Wrapping.ParagraphsApart | help_text.go:201-218 | newlines stay, and the text before and after one is wrapped separately |
| Wrapping.WrapTwice | help_text.go:191-250 | wrapping again changes nothing if no word fills a line |
| ClauseFilters.ParseCorrect | filter/clausefilter.go:143-282 | exactly the well-formed s-expressions compile, and for every record the clause is true iff the n-ary expression is, at any nesting; compilation ends on the rebuilt remainder lists |
| ClauseFilters.ParseClauseCorrect | filter/clausefilter.go:236-249 | an empty clause lets every record through; any other compiles exactly when its first s-expression is well-formed, and means what that says |
| ClauseFilters.Remainder | filter/clausefilter.go:189-197 | the list rebuilt without its first operand is smaller, though no part of the input |
| ClauseFilters.OneOperand | filter/clausefilter.go:156-162 | with one operand a connective is that operand |
| ClauseFilters.AndOneRejects | filter/clausefilter.go:48-49 | an expression of the form (and X) that rejects a record |

## Left out

- lz4, gzip and zstd: a codec is a pair of functions; the compressor's own growth loop is not modelled.
- BufferCache.New's error returns: a configuration that passes them is a precondition, with the limits New does not check (at most 128 buckets, 2^24 cells, bucket bytes below 2^32, buffers below 2^31) as a second one.
- The state of a cache after a panic, Metrics, and the float ratios of its cold part.
- Slices that alias: Bucket.Get returns a copy where the program returns a view of the bucket, and the hot buffers are values.
- CacheLedger.RunConserves: counts of decoded texts, not the order of flushes; Go's map order is free. What belongs to which key is in CacheKeys and CacheOnce.
- BufferCaching.BufferCache.Flush: cells are emitted in order, hot keys in any order.
- Metadata, per-record caches and the meta map of records; LogLine.Copy's capacity estimate.
- Chunkers.Chunker.Run: one stream; several workers share the channel and add to the counter atomically.
- Gzip and zstd set-up, file queues, statistics readers and reconnects of the inputs.
- Errors of the file system and of writes; part names are numbers instead of the names `nextSplit` builds.
- FileWriters.Worker.Rotate: each worker's uploads are a sequence of their own, not interleaved on the shared channel; path templates and compression are free choices.
- TopologyRuns.RunDelivers: a multiset, as order is not kept by several filter goroutines; for one it is in TopologyOrder, except when several outputs share a channel.
- What validation and the filters make of a record is a function of what it holds after parsing, and an output consumes its channel until it is closed; what an output uploads, and when, is left to it, and a send on a closed channel by code outside the pipeline is not considered.
- Topology set-up errors, signal handling, makeUnivocal, Error and the per-field split of the invalid count.
- ClauseFilters.ParseCorrect: starts from parsed s-expressions; the text parser and field lookup are not part of this model.
- Cloud inputs and outputs, the simple per-record filters, TOML configuration, help rendering other than wrapString, the CLI, logging and the statistics dumper.
