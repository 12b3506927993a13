# Open Video Watermark, modelled in Dafny

This project models the core of Open Video Watermark, a web service that hides a short text in
the frames of an uploaded video and reads it back later.

- **Frame watermarking.** The DCT watermarker in `watermark/dct_watermark.py` has two codecs.
  - Basic codec: the sign of one mid-frequency coefficient per 8×8 block.
  - Enhanced codec: quantisation-index modulation (QIM), with every bit repeated
    `redundancy` times and recovered by a majority vote.
- **Video driver.** `watermark/video_processor.py` applies the codec frame by frame, samples
  frames to read a watermark back, picks a codec and validates a file.
- **Upload worker.** In `app.py`, a background worker takes upload tasks off a FIFO queue. It
  records their status, keeps the registry of processed files and removes spent files.
  `allowed_file` checks extensions and `delete_file` removes a processed file.
- **Security helpers.** From `security.py`: the per-client sliding-window rate limiter and the
  input validators.

The modules follow the program:

- `TextBits`: text to bits and back, the repetition code and the vote.
- `Coefficients`: per-block bit rules over an abstract block transform.
- `BlockGrid`: padding, tiling, and the row-major block traversal over a 2-D array.
- `DctWatermark`: the two codecs, one frame at a time.
- `Counting`: `Counter.most_common`.
- `VideoProcessor`, `App` and `Security`: the rest of the core.
- `PyText`: the Python string operations the validators depend on, with Python's semantics.
- `Arith` and `Wrappers`: helpers.

Modelling choices:

- **Block transform.** `cv2.dct` and `cv2.idct` are a pair of functions, `Transform`.
  - The round trips are proved for a lossless pair: forward undoes inverse.
  - They are also proved for a pair that keeps blocks square.
- **Ideal channel.** The round trips read the embedded block grid as it is, block by block,
  straight after each block was written. Writing the frame back and reading it again are not
  part of that channel: no untiling, crop to h×w, clip to bytes or edge re-padding happens in
  between.
- **Sample values.** Samples and coefficients are exact reals. `np.clip(...).astype(np.uint8)`
  is written out as clip-then-truncate.
- **Python semantics.** These are written out explicitly:
  - `round` rounds halves to even;
  - `int()` truncates toward zero;
  - `s[:n]` accepts a negative `n`;
  - `str.strip` strips the Unicode whitespace set;
  - `str.lower` is exact on everything that can compare equal to ASCII text, including the
    Kelvin sign;
  - a `defaultdict` hands a new client an empty history.
- **Outside world.** Files, sockets, clocks and OpenCV captures become parameters:
  - a `Source` of frames with its reported frame count;
  - a `Probe` of what the validator observes;
  - a `Run` of what the pipeline did for a task;
  - the time `now`.

Loops that change state are methods proved against specification functions:

- `EmbedBlocks` replaces blocks of an `array2` in place.
- `ExtractBlocks`, `MajorityVote` and `BinaryToText` append to a result.
- `ExtractWatermarkFromVideo` stops after ten candidates.
- `PruneAll` and `RateLimiter.IsAllowed` maintain the rate limiter.
- `Worker.Relay` relays progress events.
- `Worker.Run` is the worker loop.

Behaviour of the code that a reader might not expect:

- A failed run (`success == False`) does not delete a partly written output file. Only the
  exception handler removes the output.
- When `save_file_registry` raises after a successful run, the handler reports an error and
  deletes the output file. The registry entry just added for that task stays in memory.
- The basic codec on a colour frame converts it to grey and embeds in the grey plane. It then
  writes that grey plane over channel 0 (blue) of the frame, so blocks that carry no bit change
  too.

## Model

| member | source | states |
|---|---|---|
| `TextBits.TextToBinary` | watermark/dct_watermark.py:21-23 | the concatenated `format(ord(c), '08b')` numerals are a string of binary digits |
| `TextBits.BinaryToText` | watermark/dct_watermark.py:25-32 | the loop over eight-bit groups computes `DecodeBinary`: one character per complete group, a short tail dropped |
| `TextBits.TextToBinaryLength` | watermark/dct_watermark.py:21-23 | a Latin-1 text yields exactly eight bits per character |
| `TextBits.TextToBinaryGroup` | watermark/dct_watermark.py:21-23 | character `k` occupies bits `8k..8k+8`, most significant first, and `int(_, 2)` of that group is its code point |
| `TextBits.Format08bIsFixedBits` | watermark/dct_watermark.py:23 | for a byte value `format(n, '08b')` is exactly eight digits |
| `TextBits.PaddedNumeral` | watermark/dct_watermark.py:23 | the zero-padded shortest numeral of `n < 2^w` is its fixed `w`-digit form |
| `TextBits.WideCharTakesMoreThanEightBits` | watermark/dct_watermark.py:23 | a code point of 256 or more gives more than eight digits, which misaligns every later character |
| `TextBits.FixedBitsValue` | watermark/dct_watermark.py:31 | `int(bits, 2)` of a fixed-width numeral is the number it encodes |
| `TextBits.DecodeBinaryLength` | watermark/dct_watermark.py:28-31 | one character per complete group: `len(bits) // 8` characters |
| `TextBits.BinaryRoundTrip` | watermark/dct_watermark.py:21-32 | `_binary_to_text(_text_to_binary(t)) == t` for every Latin-1 text |
| `TextBits.Repeat` | watermark/dct_watermark.py:344 | `bit * r` has `max(r, 0)` copies of the bit |
| `TextBits.ExpandLength` | watermark/dct_watermark.py:344 | the redundant string has `r` copies of every bit |
| `TextBits.ExpandBinary` | watermark/dct_watermark.py:344 | the redundant string of a bit string is a bit string |
| `TextBits.ExpandAt` | watermark/dct_watermark.py:344 | raw bit `k*r + d` is a copy of bit `k` |
| `TextBits.MajorityVote` | watermark/dct_watermark.py:469-476 | the voting loop computes `Vote`: one bit per group of `r`, '1' iff more than half the group is '1' |
| `TextBits.VoteUndoesExpand` | watermark/dct_watermark.py:344-476 | voting undoes the repetition for every bit string and `r > 1` |
| `TextBits.VoteCorrects` | watermark/dct_watermark.py:469-476 | the vote recovers the bits whenever fewer than half of each group's copies flipped |
| `TextBits.ExpandWithinHalf` | watermark/dct_watermark.py:344 | the unflipped repetition is within that error bound |
| `TextBits.VoteLength` | watermark/dct_watermark.py:471-475 | the vote yields `ceil(len / r)` bits, the last group possibly short |
| `TextBits.VoteAt` | watermark/dct_watermark.py:471-475 | voted bit `k` is the majority of raw bits `k*r .. k*r + r` |
| `Coefficients.SetCoeff` | watermark/dct_watermark.py:49 | assigning `dct_block[y, x]` changes that coefficient only and keeps the shape |
| `Coefficients.FirstFit` | watermark/dct_watermark.py:44-52 | the `for ... break` search picks the first listed position inside the block, or none |
| `Coefficients.FirstFitSameShape` | watermark/dct_watermark.py:44-46 | the chosen position depends only on the block's shape |
| `Coefficients.FirstFitInSquare` | watermark/dct_watermark.py:41-46 | in a block of side 4 or more, the basic codec always uses (1, 2) |
| `Coefficients.BasicOneReadsBack` | watermark/dct_watermark.py:34-71 | over a lossless transform, a '1' embedded with positive strength reads back as '1' |
| `Coefficients.BasicZeroMisread` | watermark/dct_watermark.py:48-51 | as written, a '0' reads back as '1' whenever the coefficient's magnitude exceeds `255 s` |
| `Coefficients.BasicZeroMisreadExample` | watermark/dct_watermark.py:48-69 | an 8×8 block whose (1, 2) DCT coefficient is 100 (under the identity transform the block is its own coefficient block), at strength 0.1, embeds '0' and reads '1' |
| `Coefficients.CorrectedBasicReadsBack` | watermark/dct_watermark.py:34-71 | with '0' mapped to `-(abs(c) + 255 s)`, every bit reads back over a lossless transform |
| `Coefficients.RoundHalfEven` | watermark/dct_watermark.py:270 | Python's `round` returns the nearest integer, ties to even |
| `Coefficients.RoundOfInteger` | watermark/dct_watermark.py:296 | rounding an integer gives it back |
| `Coefficients.RobustPositions` | watermark/dct_watermark.py:228-243 | every tier is a prefix of the seven embedding positions |
| `Coefficients.TiersNested` | watermark/dct_watermark.py:238-243 | a higher strength never selects fewer positions, and the lower tier is a prefix of the higher one |
| `Coefficients.TierSizes` | watermark/dct_watermark.py:238-243 | 3 positions below 0.1, 5 below 0.2, 7 from 0.2 on |
| `Coefficients.TierFits` | watermark/dct_watermark.py:262-264 | every tier position fits a block of side 4 or more |
| `Coefficients.QimRoundTrip` | watermark/dct_watermark.py:266-273 | bit '1' lands on an odd multiple and '0' on an even multiple of the step, so the parity read with that step recovers the bit |
| `Coefficients.QimDistortion` | watermark/dct_watermark.py:268-273 | embedding moves a coefficient by at most `q` for '0' and at most `2q` for '1' |
| `Coefficients.RobustPastTierUnmodified` | watermark/dct_watermark.py:262 | a position index past the tier leaves the coefficients as they were |
| `Coefficients.RobustPastTierReadsZero` | watermark/dct_watermark.py:289-299 | a position index past the 0.15 tier always reads '0' |
| `Coefficients.RobustReadsBack` | watermark/dct_watermark.py:245-299 | reading with the embedding strength's tier and step returns every bit written at a tier position |
| `Coefficients.DetectionStrengthReads` | watermark/dct_watermark.py:245-299 | at strength 0.15, position indices 0..4 read back and 5, 6 always read '0' |
| `Coefficients.GenerateZigzagPattern` | watermark/dct_watermark.py:211-226 | the pattern has `bs*bs` cells; cell `k` is row `k / bs`, left to right on even rows and right to left on odd rows |
| `Coefficients.ZigzagInBlock` | watermark/dct_watermark.py:218-225 | every cell lies inside the block |
| `Coefficients.ZigzagDistinct` | watermark/dct_watermark.py:218-225 | no cell is listed twice |
| `Coefficients.ZigzagCovers` | watermark/dct_watermark.py:218-225 | every cell of the block is listed |
| `BlockGrid.PadAmountSpec` | watermark/dct_watermark.py:96-97 | `(bs - n % bs) % bs` is below `bs` and makes `n` a multiple of `bs` |
| `BlockGrid.PadAmountLeast` | watermark/dct_watermark.py:96-97 | no smaller padding makes `n` a multiple of `bs` |
| `BlockGrid.PaddedBlocks` | watermark/dct_watermark.py:105-106 | `padded // bs` blocks cover the padded side exactly |
| `BlockGrid.PadEdge` | watermark/dct_watermark.py:99-100 | `np.pad(..., mode='edge')` repeats the last row and column: sample `(y, x)` is `img[min(y, h-1)][min(x, w-1)]` |
| `BlockGrid.Crop` | watermark/dct_watermark.py:136-137 | `img[:h, :w]` keeps the top-left samples |
| `BlockGrid.CropUndoesPad` | watermark/dct_watermark.py:99-137 | cropping the padded plane gives the plane back |
| `BlockGrid.ClipToByte` | watermark/dct_watermark.py:140 | `np.clip(v, 0, 255).astype(np.uint8)` is an integer in 0..255, equal to `floor(v)` inside that range |
| `BlockGrid.ClipPlane` | watermark/dct_watermark.py:140 | every sample of the clipped plane is a byte |
| `BlockGrid.ClipPlaneOfBytes` | watermark/dct_watermark.py:140 | clipping a byte plane changes nothing |
| `BlockGrid.Tile` | watermark/dct_watermark.py:115-120 | block `(i, j)` holds samples `(i bs + y, j bs + x)` |
| `BlockGrid.Untile` | watermark/dct_watermark.py:127 | writing the blocks back gives a plane of `rows bs × cols bs` samples |
| `BlockGrid.UntileTileAt` | watermark/dct_watermark.py:115-127 | sample `(r, c)` survives tiling and writing back |
| `BlockGrid.UntileTile` | watermark/dct_watermark.py:115-127 | the blocks cover the plane exactly once |
| `BlockGrid.EmbedGrid` | watermark/dct_watermark.py:110-133 | the embedded grid has the shape of the original |
| `BlockGrid.EmbedGridIsGrid` | watermark/dct_watermark.py:110-133 | an operation that keeps blocks square keeps the grid a grid |
| `BlockGrid.EmbedBlocks` | watermark/dct_watermark.py:110-133 | block `(i, j)`, number `k = i cols + j` in row-major order, becomes `op(block, bits[k], k)` if `k < len(bits)` and is otherwise unchanged |
| `BlockGrid.ReadCells` | watermark/dct_watermark.py:183-203 | the read string has one bit per block, row-major |
| `BlockGrid.ExtractBlocks` | watermark/dct_watermark.py:183-203 | the loops read `min(max(needed, 0), blocks)` bits, bit `k` from block number `k` |
| `BlockGrid.EmbedGridAt` | watermark/dct_watermark.py:110-133 | block number `k` of the embedded grid is block `k` with bit `k` embedded |
| `BlockGrid.GridRoundTrip` | watermark/dct_watermark.py:110-203 | on an ideal channel, reading back `len(bits)` blocks returns the bits whenever they fit and the block read inverts the block write |
| `Counting.Count` | watermark/dct_watermark.py:412 | a count is positive iff the value occurs |
| `Counting.FirstMax` | watermark/dct_watermark.py:413 | the winner has a maximal count, and no earlier candidate has the same count |
| `Counting.MostCommon` | watermark/dct_watermark.py:411-413 | `most_common(1)[0][0]` is a most frequent entry, and the first seen among those tied |
| `Counting.MajorityIsMostCommon` | watermark/dct_watermark.py:411-413 | a value in more than half of the entries is the answer |
| `Counting.CountsOfTwo` | watermark/dct_watermark.py:412 | two distinct values occur at most `len` times together |
| `Counting.UnanimousIsMostCommon` | watermark/dct_watermark.py:411-413 | a list of one repeated value yields that value |
| `DctWatermark.BlocksAlong` | watermark/dct_watermark.py:105-106 | the block count times the block size is the padded side |
| `DctWatermark.Padded` | watermark/dct_watermark.py:99-100 | the padded plane's sides are multiples of the block size |
| `DctWatermark.PlaneGrid` | watermark/dct_watermark.py:99-120 | the padded plane splits into a grid of square blocks |
| `DctWatermark.Finish` | watermark/dct_watermark.py:135-140 | the reassembled plane has the original size and holds bytes |
| `DctWatermark.EmbeddedPlane` | watermark/dct_watermark.py:94-140 | embedding keeps the plane's size and yields bytes |
| `DctWatermark.EmbedPlane` | watermark/dct_watermark.py:94-140 | pad, embed in place in a 2-D array of blocks, write back, crop and clip computes `EmbeddedPlane` |
| `DctWatermark.PlaneBits` | watermark/dct_watermark.py:167-203 | `min(needed, blocks)` bits are read |
| `DctWatermark.ReadPlane` | watermark/dct_watermark.py:167-203 | the extraction loops compute `PlaneBits` |
| `DctWatermark.BasicOpKeepsSquare` | watermark/dct_watermark.py:34-55 | the basic block operation keeps blocks square |
| `DctWatermark.EmbedWatermark` | watermark/dct_watermark.py:73-148 | a grey frame, or the luma of a colour frame, carries the text's bits; the colour result replaces channel 0 and keeps channels 1 and 2 |
| `DctWatermark.ExtractWatermark` | watermark/dct_watermark.py:150-209 | the text decoded from `length*8` bits of channel 0 has `min(8 length, blocks) / 8` characters, i.e. `length` when they fit; a length of 0 or less gives '' |
| `DctWatermark.CorrectedBasicOpReadsBack` | watermark/dct_watermark.py:34-71 | the corrected block operation keeps blocks square, and the basic read returns what it writes |
| `DctWatermark.CorrectedBasicRoundTrip` | watermark/dct_watermark.py:73-209 | with the corrected bit rule, the ideal channel returns every Latin-1 text whose bits fit |
| `DctWatermark.RobustOpKeepsSquare` | watermark/dct_watermark.py:245-275 | the QIM block operation keeps blocks square |
| `DctWatermark.EmbedInChannel` | watermark/dct_watermark.py:326-382 | the channel carries the redundant bits, by QIM at position index `k % 7` |
| `DctWatermark.EmbedWatermarkEnhanced` | watermark/dct_watermark.py:301-324 | each of the three channels, or the grey plane, carries the text independently |
| `DctWatermark.ChannelBinary` | watermark/dct_watermark.py:468-478 | the voted or truncated raw read is a bit string |
| `DctWatermark.ExtractFromChannel` | watermark/dct_watermark.py:421-483 | the channel's text is the decoded vote, or the raw bits cut at `[:length*8]` (Python slice, a negative bound counting from the end) when there is no vote, over `length*8*redundancy` raw reads |
| `DctWatermark.ChannelTextNonPositive` | watermark/dct_watermark.py:447-478 | a length of 0 or less with a non-negative redundancy reads no block and gives '' |
| `DctWatermark.ChannelTextLength` | watermark/dct_watermark.py:421-483 | with room for every copy, exactly `length` characters come back |
| `DctWatermark.NonEmptyMembers` | watermark/dct_watermark.py:406-407 | the kept texts are exactly the non-empty channel texts |
| `DctWatermark.ReadChannels` | watermark/dct_watermark.py:401-407 | the channel loop keeps the non-empty texts of the planes, in channel order |
| `DctWatermark.ExtractWatermarkEnhanced` | watermark/dct_watermark.py:384-419 | a grey frame gives its text; a colour frame gives the most common non-empty channel text, or None |
| `DctWatermark.ChannelMajorityWins` | watermark/dct_watermark.py:409-413 | two agreeing channels out of three decide the answer |
| `DctWatermark.MaskedPositions` | watermark/dct_watermark.py:289-297 | the raw read of an ideal channel at 0.15 has one bit per embedded bit |
| `DctWatermark.EnhancedReadsMasked` | watermark/dct_watermark.py:358-378 | as written, at strength 0.15 the ideal channel returns the bits with indices `k % 7` in {5, 6} forced to '0' |
| `DctWatermark.EnhancedLosesBitSix` | watermark/dct_watermark.py:459-475 | with redundancy 3, a '1' at bit 6 is voted to '0': two of its three copies sit at indices 5 and 6 |
| `DctWatermark.EnhancedExampleB` | watermark/dct_watermark.py:341-481 | 'B' is `01000010` and its bit 6 comes back '0' |
| `DctWatermark.CorrectedRobustReadsBack` | watermark/dct_watermark.py:245-299 | the corrected read uses the embedding's tier and step, cycling over that tier, and returns what the write stored |
| `DctWatermark.CorrectedGridReadsBack` | watermark/dct_watermark.py:358-466 | with the corrected read, the ideal channel returns every bit string that fits |
| `DctWatermark.CorrectedEnhancedRoundTrip` | watermark/dct_watermark.py:326-483 | with the corrected read, the vote gives back the text's bits and the decoded text, for every strength and redundancy above one |
| `VideoProcessor.ProgressCalls` | watermark/video_processor.py:92-105 | one callback per frame read, numbered from 1, with the reported total |
| `VideoProcessor.EmbedWatermarkInVideo` | watermark/video_processor.py:45-121 | False when the capture or writer does not open or the count is 0; otherwise every frame is written in order (watermarked, or the original when embedding raised) and the verdict is whether the output has content |
| `VideoProcessor.Candidates` | watermark/video_processor.py:150-156 | candidates are non-empty texts without "Error", from sampled frames |
| `VideoProcessor.CandidatesPrefix` | watermark/video_processor.py:146-164 | reading more frames only appends candidates |
| `VideoProcessor.Kept` | watermark/video_processor.py:163-164 | at most ten candidates are kept, the first ones |
| `VideoProcessor.ReadSampledFrames` | watermark/video_processor.py:141-164 | the frame loop keeps exactly the first ten candidates; the frames it hands to `extract_watermark` are sampled and in increasing order |
| `VideoProcessor.RecordAttempt` | watermark/video_processor.py:149-151 | attempting frame `n` keeps the attempted indices sampled and increasing |
| `VideoProcessor.KeptWhenStopped` | watermark/video_processor.py:160-164 | stopping at ten candidates or at the last frame leaves the kept candidates |
| `VideoProcessor.ExtractWatermarkFromVideo` | watermark/video_processor.py:123-178 | None when the capture does not open or the rate is 0; otherwise the most common kept candidate, or None; only sampled frames are read, in increasing order |
| `VideoProcessor.MajorityOfFramesWins` | watermark/video_processor.py:168-172 | a text read from more than half of the kept frames is the answer |
| `VideoProcessor.GetOptimalCodec` | watermark/video_processor.py:369-395 | X264 from 1920×1080, mp4v from 1280×720 or without info, XVID below |
| `VideoProcessor.CodecMonotone` | watermark/video_processor.py:387-392 | a larger frame never gets a lower class |
| `VideoProcessor.ValidateVideoComprehensive` | watermark/video_processor.py:247-317 | valid iff readable, has a stream and has no errors; a missing, empty or unopenable file returns the initial report with one error and no other change; a file that opens is readable and carries its probed resolution, frame count and fps, its duration and its warnings (the codec, audio and format fields are left out) |
| `VideoProcessor.ReadableReport` | watermark/video_processor.py:268-317 | an opened file: stream present iff the first frame reads, otherwise exactly one error; duration is frames over rate when the rate is positive, else 0; valid iff the stream is present and there are no errors |
| `VideoProcessor.CollectWarnings` | watermark/video_processor.py:293-308 | the warnings appended one check at a time are exactly the warnings the four checks define, in order |
| `VideoProcessor.WarningsMeans` | watermark/video_processor.py:294-308 | each warning is present iff its condition holds; "very long" only when the duration is not also "very short" |
| `Security.DropOlder` | security.py:50-51 | popping the front run leaves a suffix starting at or after the cutoff, and everything dropped is older |
| `Security.DropOlderKeepsRecent` | security.py:50-51 | on a sorted history, what remains is exactly the timestamps at or after the cutoff |
| `Security.PopOlder` | security.py:50-51 | the popleft loop computes `DropOlder` |
| `Security.Pruned` | security.py:60-77 | a cleanup keeps exactly the clients with a timestamp in the last hour, each with its pruned history |
| `Security.PruneAll` | security.py:60-77 | the two loops of `_cleanup` compute `Pruned` |
| `Security.RemovingEmptiesPrunes` | security.py:71-75 | deleting the collected empty clients after pruning gives `Pruned` |
| `Security.RateLimiter.constructor` | security.py:22-25 | no clients; the last cleanup is now |
| `Security.RateLimiter.Cleanup` | security.py:60-77 | the client map becomes `Pruned(old, now - 3600)` |
| `Security.RateLimiter.Admit` | security.py:46-58 | after any cleanup: allowed iff fewer than `limit` timestamps lie in the window; the pruned history is stored, with `now` appended only when allowed |
| `Security.RateLimiter.IsAllowed` | security.py:27-58 | allowed iff fewer than `limit` timestamps lie in the window after a due cleanup; `now` is appended only when allowed; the cleanup time advances only when a cleanup ran |
| `Security.PrunedSortedBefore` | security.py:60-77 | a cleanup keeps every history sorted |
| `Security.AllowedKeepsSorted` | security.py:27-58 | with a non-decreasing clock, every history stays sorted |
| `Security.AllowedKeepsLimit` | security.py:50-56 | with one limit, no history grows past it |
| `Security.RefusedOnlyPrunes` | security.py:50-58 | a refused request only drops old timestamps |
| `Security.GetClientIp` | security.py:82-94 | first X-Forwarded-For entry, stripped; else X-Real-IP; else the peer address; else 'unknown' |
| `Security.Extension` | security.py:177 | the lowered text after the last '.', or '' without a dot |
| `Security.LowerAfterLast` | security.py:177 | lowering and taking the text after the last '.' commute |
| `Security.ValidateFilename` | security.py:150-189 | true iff the name is non-empty, has no "..", '/', '\\' or NUL, has no dangerous extension, is at most 255 long and has no control character |
| `Security.DangerousInAnyCase` | security.py:171-179 | a dangerous extension is refused in any mix of case |
| `Security.DropControls` | security.py:206 | no control character remains, and a clean text is unchanged |
| `Security.SanitizeInput` | security.py:191-215 | the result has no control characters, no edge whitespace, and at most `max_length` characters when that is positive |
| `Security.SanitizeIdempotent` | security.py:191-215 | sanitising twice is sanitising once, for any bound that does not count from the end |
| `Security.SanitizeSameLength` | security.py:191-215 | a text that keeps its length is unchanged |
| `Security.ValidateWatermarkText` | security.py:370-391 | empty is refused; valid iff no message; valid iff the text is non-empty and sanitising keeps its length; a valid text is returned as is and has 1..50 characters; the "too long" message never occurs |
| `Security.WatermarkTextAccepted` | security.py:370-391 | a text is accepted iff it has 1..50 characters, no control character and no whitespace at either end |
| `Security.OverlongTextMisreported` | security.py:383-389 | 51 letters are reported as invalid characters |
| `Security.CorrectedValidateWatermarkText` | security.py:370-391 | "too long" iff the text is clean and longer than 50; valid iff sanitising without a bound keeps the length and the text has 1..50 characters |
| `Security.CorrectedAcceptsTheSame` | security.py:370-391 | the correction accepts exactly the texts the original accepts |
| `Security.ValidateStrengthParameter` | security.py:352-368 | accepted iff parsed and in [0.05, 0.3], with its value; otherwise `(False, 0.0, message)` by cause |
| `PyText.ContainsAt` | security.py:164 | `'..' in s` holds at every offset where the pattern occurs |
| `PyText.Lower` | security.py:177 | `lower()` character by character |
| `PyText.Strip` | security.py:88 | `strip()` removes whitespace runs at both ends and leaves no edge whitespace |
| `PyText.StripTrimmed` | security.py:213 | a text without edge whitespace is unchanged |
| `PyText.AfterLast` | app.py:77 | `rsplit(c, 1)[1]` is the text after the last `c` |
| `PyText.BeforeFirst` | security.py:88 | `split(',')[0]` is the text before the first comma |
| `PyText.PyPrefix` | security.py:209-210 | `s[:n]`, with a negative `n` counting from the end |
| `App.AllowedFile` | app.py:75-77 | an allowed name contains a dot |
| `App.AllowedFileMeans` | app.py:75-77 | allowed iff the lowered text after the last '.' is an allowed extension |
| `App.AllowedByExtension` | app.py:75-77 | only the final extension counts, in any case |
| `App.Basename` | app.py:176 | `os.path.basename` is the text after the last '/' |
| `App.JoinBasename` | app.py:176 | the basename of `folder/name` is `name`, so `delete_file` rebuilds the same path |
| `App.Trunc` | app.py:154 | `int()` truncates toward zero |
| `App.PercentBounds` | app.py:154 | for `0 <= frame <= total` the progress is in 0..100, grows with the frame and reaches 100 |
| `App.FinalStatus` | app.py:170-219 | 'completed' with 100 iff the run succeeded and the registry was saved; otherwise 'error' with 0 |
| `App.Info` | app.py:173-182 | the registry entry is keyed by the task id and names the output's basename |
| `App.ProgressEvents` | app.py:153-161 | one 'processing' record per progress call, in order |
| `App.Emitted` | app.py:141-219 | a task emits the initial record, one record per progress call and its final record, all for its id |
| `App.FilesAfter` | app.py:202-228 | the input is gone after a task; the output stays on success and is gone after a crash |
| `App.Taken` | app.py:125-130 | the tasks taken before the first `None`: never more entries than are queued, and fewer exactly when a `None` is queued |
| `App.TakenMeans` | app.py:125-130 | the taken tasks are the queue's first entries in order, and the entry right after them is the `None` that stops the loop |
| `App.StatusesAt` | app.py:141-200 | with distinct task ids, after the loop each taken task's status is its own final status ('completed' or 'error') |
| `App.StatusesElsewhere` | app.py:141-200 | the loop leaves the status of every id it did not take as it was |
| `App.Worker.constructor` | app.py:71-73 | empty queue and statuses, registry as loaded |
| `App.Worker.Submit` | app.py:293-338 | the input is saved, the task is queued at the back, and its status is 'queued' |
| `App.Worker.Shutdown` | app.py:128-130 | the `None` sentinel is queued at the back |
| `App.Worker.Report` | app.py:141-147 | the record replaces the task's status and is emitted |
| `App.Worker.Process` | app.py:133-228 | the task's status, registry entry, files and events become their specified final values; other tasks are untouched |
| `App.Worker.Relay` | app.py:153-161 | each progress call replaces the status and is emitted, in order |
| `App.Worker.Conclude` | app.py:170-228 | registry entry only on success; final record; input removed, output also removed when saving raised |
| `App.Worker.Step` | app.py:125-230 | one dequeue: the sentinel stops the loop, a task is processed; `task_done` is counted either way |
| `App.Worker.Run` | app.py:122-230 | tasks are taken in FIFO order up to the first `None`; status, registry, files and emitted events are each task's effect applied in queue order; `task_done` is counted once per consumed entry; on a `None` the worker stops with the entries after it still queued, otherwise it empties the queue |
| `App.Worker.DeleteFile` | app.py:397-413 | 404 with no change for an unknown id; otherwise the entry removed is the one recorded under that id (the registry invariant), and the processed file and that one registry entry are removed |
| `App.TaskIsolation` | app.py:141-219 | a task's records never change another task's status or registry entry |
| `App.DeleteRemovesOutput` | app.py:176-403 | deleting a processed task removes exactly the output file the worker wrote |

## Left out

- **OpenCV and floating point.**
  - `cv2.dct` and `cv2.idct` are a parameter. The round trips assume a lossless pair.
  - Float32 rounding, and the effect of clipping and uint8 truncation on what is read back, are
    not modelled.
  - `cv2.cvtColor` is the parameter `luma`.
- **Round trips through a whole frame.** `BlockGrid.GridRoundTrip`,
  `DctWatermark.CorrectedBasicRoundTrip`, `DctWatermark.CorrectedGridReadsBack` and
  `DctWatermark.CorrectedEnhancedRoundTrip` hold on the ideal channel only. They do not reach
  `ExtractWatermark(EmbedWatermark(frame))`: writing back crops the padded border blocks to h×w
  and clips to bytes, and extraction re-pads by edge replication. When h or w is not a multiple
  of the block size, the border blocks read back are not the ones written. `BlockGrid.CropUndoesPad`
  covers only the opposite order, crop after pad.
- **`TextBits.BinaryToText` preconditions.**
  - It requires a bit string. `int(byte, 2)` raising on other characters, and the
    `except: return "Error: ..."` path, cannot arise from the codec's own reads.
  - `chr` of a value of 256 or more is not a concern, since an eight-bit group is below 256.
- **Non-Latin-1 text.** `TextBits.TextToBinary` is exact for any text, but the round-trip
  lemmas require Latin-1 text. A character of 256 or more gives a longer numeral, and
  `TextBits.WideCharTakesMoreThanEightBits` states that this misaligns decoding.
- **`test_robustness`.** It is not modelled: it is a test harness over JPEG, noise and scaling
  attacks done by OpenCV.
- **A concrete example round trip.** No lemma shows the round trip on a concrete text. The
  general lemmas cover every Latin-1 text.
- **`watermark/video_processor.py` I/O.**
  - `get_video_info`, `validate_video_file`, `get_video_duration`,
    `estimate_processing_time` and `create_processing_stats` are not modelled.
  - The codec choice takes the (width, height) that `get_video_info` reports.
  - The validator takes what it observes as a `Probe`.
  - Messages are datatypes, not formatted strings.
- **`VideoProcessor.ValidateVideoComprehensive` report fields.** The report leaves out the codec
  (fourcc) name, `has_audio_stream` and `format`. None of them affects `valid` or the errors and
  warnings. The outer `except` that appends 'Validation error: ...' when OpenCV raises is not
  modelled.
- **`VideoProcessor.EmbedWatermarkInVideo` and `ExtractWatermarkFromVideo`.** The outer
  `except` that catches OpenCV failures is not modelled; only the inner per-frame `except`
  around the watermarker is modelled.
- **Progress percentage.** `App.Percent` divides exactly. Python divides in floating point
  first, so a few ratios come out one lower (29/100 gives 28).
- **Upload route.** `App.Worker.Submit` queues the task and writes its 'queued' status in one
  step. In the code the task is put on the queue before the status is written, so a fast worker's
  'processing' record can be overwritten by 'queued'.
- **Rest of `upload_file`.** Its validation, magic-number checks and per-request error list are
  not modelled.
- **Worker loop.** `App.Worker.Run` stops when the queue is empty, where the real worker blocks
  in `get()`.
- **Worker exceptions.** The only exception path modelled in the worker is `save_file_registry`
  raising. The pipeline catches its own failures, and `os.remove` failures are logged and
  ignored.
- **Times and persistence.** `processed_date` and the registry's JSON file are not modelled.
- **`App.Worker.DeleteFile`.** `save_file_registry` failing after the in-memory delete is not
  modelled.
- **Other routes.** The download, status and listing routes are not modelled.
- **Security I/O.** `time.time()` is the parameter `now`. `Security.RateLimiter.IsAllowed` and
  `Cleanup` read the clock separately in the code; here they share one value of `now`.
- **Header access.** `request.headers` and `request.remote_addr` are the parameters of
  `Security.GetClientIp`.
- **Other `security.py` functions.** The `rate_limit` decorator, the security headers,
  `validate_video_upload`, `hash_client_id`, `log_security_event`, the middleware and
  `validate_file_content` are outside the modelled core.
- **`Security.ValidateStrengthParameter`.** It takes the result of `float(strength_str)`; Python's
  float parsing is not modelled.
- **`PyText.Lower`.** It is exact only where the result can equal ASCII text. Other characters
  are kept as they are, which no comparison in the code can tell apart.

## Findings

| source | as written | input that shows it | evidently intended | confidence | as-written member | corrected member |
|---|---|---|---|---|---|---|
| watermark/dct_watermark.py:48-51 | bit '0' sets the coefficient to `abs(c) - 255 s`, which is still positive when `abs(c) > 255 s`, and the reader reports '1' for any positive coefficient | an 8×8 block whose (1, 2) DCT coefficient is 100 (under the identity transform the block is its own coefficient block), at strength 0.1: 100 - 25.5 = 74.5 > 0 reads '1' | bit '0' makes the coefficient negative, so the sign carries the bit | not executed | `Coefficients.BasicZeroMisreadExample` | `DctWatermark.CorrectedBasicRoundTrip` |
| watermark/dct_watermark.py:289-297 | extraction always uses the five positions and the step 2.4 of strength 0.15, while embedding cycles over seven position indices (`bit_index % 7`); indices 5 and 6 always read '0' | "B" (`01000010`) at strength 0.15 with redundancy 3: raw bits 18, 19 and 20 are the copies of bit 6, at indices 4, 5 and 6, and read '1', '0', '0', so the vote gives '0' | read with the same tier and step as the embedding, cycling over that tier | not executed | `DctWatermark.EnhancedExampleB` | `DctWatermark.CorrectedEnhancedRoundTrip` |
| security.py:383-389 | the text is sanitised with `max_length = 50` before its length is checked, so a long text is cut to 50 and reported as containing invalid characters; the "too long" message is unreachable | 51 × 'a' returns (False, 50 × 'a', "contains invalid characters") | sanitise without truncating, so a text over 50 characters is reported as too long | not executed | `Security.OverlongTextMisreported` | `Security.CorrectedValidateWatermarkText` |

The basic and enhanced methods (`DctWatermark.EmbedWatermark`, `ExtractWatermark`,
`EmbedInChannel` and `ExtractFromChannel`) model the code as written. The corrected block
operations stand beside them, and the round trips are proved for the corrected operations.
