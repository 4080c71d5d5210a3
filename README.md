# Tello client core, modelled in Dafny

This project models the logic of the Kotlin client for the Ryze/DJI Tello drone that does
not depend on sockets, coroutines or the ffmpeg process, and proves properties of it.

- **Telemetry snapshots** (`TelloState`). The `CommandModeState` data class has sixteen
  fields and non-zero default values. Its parsing constructor splits a state datagram on `;`,
  splits each segment once on `:`, and assigns the value through a fixed key table. Unknown
  keys are ignored. A known key without a value, or a value that `toInt()`/`toByte()` rejects,
  makes the constructor throw; the model returns an error value instead. The constructor is
  the method `ParseState`, a loop over the segments, proved equal to the fold `Parse`.
- **Commands** (`TelloCommands`). These are the texts of `speed`, `rc` and `rotate`, including
  the sign handling of `rotate`. They are checked against a reader of command texts.
  `sendCmd`'s wait for an answer is the method `SendCmd`, a loop over the datagrams received;
  it is proved equal to `FirstReply`, the first datagram from the drone that starts with `ok`
  or `error`. `Short.reverseBytes` is here too.
- **Video** (`Video`). `feed` strips the 2-byte header. `Buffer` has content-based equality and
  hash. `getFrames960x720RGB888` cuts decoder output into frames of `960 * 720 * 3` bytes. The
  class `FrameAssembler` holds the reused frame buffer (an `array`) and its fill offset, both
  carried from chunk to chunk. `ProcessChunk` runs the do-while loop for one chunk exactly as
  written, and is proved against the function `Fill`. `ProcessChunkFixed` is the loop as
  evidently intended (see Findings).
- **Kotlin library behaviour** (`KotlinText`), on which the rest relies:
  - 32-bit `Int` wrap-around;
  - `Int.toString`, `toIntOrNull` and `toByteOrNull`;
  - `split(c)`, which keeps empty parts;
  - `split(c, limit = 2)` and `startsWith`.

Integers are unbounded in Dafny, so Kotlin's `Byte`, `Short` and `Int` are the newtypes
`int8`, `int16` and `int32`. Wrap-around is written out wherever the Kotlin arithmetic can
overflow: in `hashCode` and in `-angle` of `rotate`.

## Model

| member | source | states |
|---|---|---|
| TelloState.FieldFor | src/commonMain/kotlin/Tello.kt:248-265 | The key table: a key selects a field only if it is that field's key, and selects nothing if no field has that key. |
| TelloState.FieldForKey | src/commonMain/kotlin/Tello.kt:248-265 | The sixteen keys are distinct: every field is found by its own key. |
| TelloState.Decode | src/commonMain/kotlin/Tello.kt:249-264 | A float field is handed its text. `bat` decodes exactly when `toByteOrNull` succeeds, to that `Byte` (in -128..127). The other fields decode exactly when `toIntOrNull` succeeds, to that `Int`. |
| TelloState.Assign | src/commonMain/kotlin/Tello.kt:249-264 | One `when` arm: it fails with `BadNumber(key, text)` exactly when the value does not decode. On success, the field holds the decoded value and every other field is unchanged. |
| TelloState.ApplySegment | src/commonMain/kotlin/Tello.kt:246-265 | One loop iteration: a segment with an unknown or empty key changes nothing. A known key with no `:` fails with `MissingValue` (the `kv[1]` index error). A success changes only the field the key selects. |
| TelloState.ParseState | src/commonMain/kotlin/Tello.kt:245-267 | The parsing constructor's loop over the `;`-separated segments returns what the fold `Parse` defines: the first failure, or the defaults updated by every segment in order. |
| TelloState.ApplyAllStep | src/commonMain/kotlin/Tello.kt:246 | The segments are applied left to right: one more segment applies to the state left by the earlier ones, unless an earlier one failed. |
| TelloState.FailureIsFinal | src/commonMain/kotlin/Tello.kt:246-265 | Once a segment throws, the whole parse throws that segment's error, whatever follows. |
| TelloState.UnknownKeysChangeNothing | src/commonMain/kotlin/Tello.kt:248-265 | Segments whose keys are all unknown, including empty ones such as a trailing `;`, leave the snapshot unchanged. |
| TelloState.Defaults | src/commonMain/kotlin/Tello.kt:225-240 | The data class's default values. `ParseWithoutKnownKeys` states that text without a known key parses to exactly these. |
| TelloState.ParseWithoutKnownKeys | src/commonMain/kotlin/Tello.kt:225-240 | Text with no known key, such as `""`, parses to the defaults: `yaw = -45`, `bat = 92`, `baro = 584.55`, every other field 0. |
| TelloState.LastWriteWins | src/commonMain/kotlin/Tello.kt:246-265 | If a key occurs more than once, the field holds the value of its last occurrence. |
| TelloState.ApplyKnownSegment | src/commonMain/kotlin/Tello.kt:247-265 | A segment `key:text` with a known key assigns `text` to that key's field. |
| TelloState.KeyHasNoSeparator | src/commonMain/kotlin/Tello.kt:249-264 | No key contains `;` or `:`. |
| TelloState.ParseSingleSegment | src/commonMain/kotlin/Tello.kt:246 | Text without `;` is one segment. |
| TelloState.ParseOneSegment | src/commonMain/kotlin/Tello.kt:245-265 | Parsing one segment `key:value` for a field assigns the value to that field and nothing else. |
| TelloState.ApplyIntSegment | src/commonMain/kotlin/Tello.kt:249-258 | A known integer key followed by a printed `Int` stores exactly that `Int`. |
| TelloState.ApplyBatterySegment | src/commonMain/kotlin/Tello.kt:259 | `bat` followed by a printed `Byte` stores exactly that `Byte`. |
| TelloState.ParseExample | src/commonMain/kotlin/Tello.kt:245-267 | For all `p`, `r` and `b`, `pitch:p;roll:r;bat:b` yields the defaults with exactly those three fields set. |
| TelloState.ParseThree | src/commonMain/kotlin/Tello.kt:246-265 | Three segments without `;` are applied in order to the defaults. |
| TelloState.ParseValueAfterFirstColon | src/commonMain/kotlin/Tello.kt:247 | The value is everything after the first `:`. `pitch:1:2` tries `"1:2"` as a number and throws; a float field is handed the text `"1:2"` (float parsing is left out). |
| TelloState.ParseMissingValue | src/commonMain/kotlin/Tello.kt:247-249 | A known key without `:` throws. |
| TelloState.ParseIntOutOfRange | src/commonMain/kotlin/Tello.kt:249-258 | An integer field throws on a decimal value above `Int.MAX_VALUE`. |
| TelloState.ParseIntBelowRange | src/commonMain/kotlin/Tello.kt:249-258 | An integer field throws on a negative decimal value below `Int.MIN_VALUE`. |
| TelloState.ParseBatteryOutOfRange | src/commonMain/kotlin/Tello.kt:259 | `bat` throws on an `Int` outside -128..127. |
| TelloCommands.CommandText | src/commonMain/kotlin/Tello.kt:131-148 | The words of every command text contain no space, so splitting the text on spaces gives back exactly its words. `ReadCommandText` states that the text reads back as its command. |
| TelloCommands.ReadCommandText | src/commonMain/kotlin/Tello.kt:95-148 | Every command text is read back as the command that produced it. The one exception is `rotate(Int.MIN_VALUE)`. |
| TelloCommands.ReadWordsOf | src/commonMain/kotlin/Tello.kt:95-148 | The words of every command are read back as that command, again except `rotate(Int.MIN_VALUE)`. |
| TelloCommands.ReadNumberWords | src/commonMain/kotlin/Tello.kt:131-148 | `speed n`, `cw n` for `n > 0` and `ccw n` for `n >= 0` are read back; other keywords are not. |
| TelloCommands.ReadRcWords | src/commonMain/kotlin/Tello.kt:138-139 | `rc x y z yaw` is read back as the same four numbers. |
| TelloCommands.Words | src/commonMain/kotlin/Tello.kt:95-148 | Every command has at least one word, and no word contains a space. `ReadWordsOf` states that the words read back as their command. |
| TelloCommands.RotateZero | src/commonMain/kotlin/Tello.kt:144-148 | `rotate(0)` sends `ccw 0`. |
| TelloCommands.RotateDirection | src/commonMain/kotlin/Tello.kt:141-148 | For every angle other than `Int.MIN_VALUE`, `rotate` sends `cw` for a positive angle and `ccw` otherwise, followed by the absolute angle. |
| TelloCommands.RotateMinValue | src/commonMain/kotlin/Tello.kt:147 | `-Int.MIN_VALUE` wraps, so `rotate(Int.MIN_VALUE)` sends `ccw -2147483648`, which the reference reader rejects. |
| TelloCommands.FirstReplyIsFirstDeciding | src/commonMain/kotlin/Tello.kt:63-77 | The answer is `true` (`false`) exactly when some datagram is from the drone and starts with `ok` (`error`), and no earlier datagram from the drone starts with `ok` or `error`. |
| TelloCommands.NoReplyWithoutDeciding | src/commonMain/kotlin/Tello.kt:64-75 | There is no answer exactly when no datagram from the drone starts with `ok` or `error`. |
| TelloCommands.SendCmd | src/commonMain/kotlin/Tello.kt:61-78 | Sends the text to the drone's address. It answers `FirstReply` of the datagrams received. With no answer, it returns `false` if the socket closes and times out otherwise. |
| TelloCommands.LaterDatagramsIgnored | src/commonMain/kotlin/Tello.kt:69-73 | Datagrams after the deciding one cannot change the answer. |
| TelloCommands.ReplyScenarios | src/commonMain/kotlin/Tello.kt:64-76 | `ok` succeeds, `error...` fails, other senders and other texts are skipped, and an empty sequence has no answer. |
| TelloCommands.ReverseBytes | src/commonMain/kotlin/Tello.kt:270-274 | The low byte of the result is the high byte of the argument, and vice versa. |
| TelloCommands.SameBytes | src/commonMain/kotlin/Tello.kt:270-274 | A `Short` is determined by its two bytes. |
| TelloCommands.ReverseBytesTwice | src/commonMain/kotlin/Tello.kt:270-274 | `reverseBytes` is an involution. |
| KotlinText.Wrap32 | src/commonMain/kotlin/Video.kt:97-99 | `Int` arithmetic gives the exact result modulo 2^32, and the exact result itself when that fits an `Int`. |
| KotlinText.Negate32 | src/commonMain/kotlin/Tello.kt:147 | `-x` is exact except on `Int.MIN_VALUE`, which negates to itself. |
| KotlinText.NatToDecimal | src/commonMain/kotlin/Tello.kt:132 | The decimal spelling of a natural number is non-empty, all digits, has that value, and has no leading zero except in `"0"`. |
| KotlinText.IntToString | src/commonMain/kotlin/Tello.kt:132 | A printed `Int` is its value in decimal digits when non-negative, and `-` followed by its magnitude's digits when negative, with no leading zero except in `"0"`: the exact text Kotlin prints. |
| KotlinText.IntToStringChars | src/commonMain/kotlin/Tello.kt:132 | A printed `Int` contains no character except digits and `-`. |
| KotlinText.ParseInt | src/commonMain/kotlin/Tello.kt:249 | `toInt()` rejects `""`, `"-"` and `"+"`. Digits alone, or after `+`, read as their value when it is at most `Int.MAX_VALUE` and are rejected above it. Digits after `-` read as the negated value down to `Int.MIN_VALUE` and are rejected below it. |
| KotlinText.NonDigitIsNoNumber | src/commonMain/kotlin/Tello.kt:249 | Any character other than a digit, after the optional sign, makes `toInt()` reject the text (`abc`, `1:2`, `--1`). |
| KotlinText.ParseByteOfInt | src/commonMain/kotlin/Tello.kt:259 | A printed `Int` reads back through `toByte()` as the same value exactly when it lies in -128..127, and is rejected otherwise. |
| KotlinText.ParseIntToString | src/commonMain/kotlin/Tello.kt:132 | Every `Int` is read back from its printed form. |
| KotlinText.Split | src/commonMain/kotlin/Tello.kt:246 | `split(';')` gives at least one part, no part contains the separator, and joining the parts with it gives back the text. |
| KotlinText.SplitJoin | src/commonMain/kotlin/Tello.kt:246 | Splitting undoes joining parts that do not contain the separator. |
| KotlinText.SplitFirst | src/commonMain/kotlin/Tello.kt:247 | `split(':', limit = 2)` gives one part exactly when there is no `:`. Otherwise it gives the text before the first `:` and everything after it. |
| KotlinText.SplitFirstOf | src/commonMain/kotlin/Tello.kt:247 | For a key without `:`, `key:value` splits into `key` and `value`, whatever `value` holds. |
| Video.BufferEquals | src/commonMain/kotlin/Video.kt:83-94 | Two `Buffer`s are equal exactly when their contents, offsets and lengths are equal. |
| Video.ComputeHashCode | src/commonMain/kotlin/Video.kt:96-101 | The loop computes the content hash (`31 * h + byte` from 1, wrapping), then folds in the offset and the length. |
| Video.EqualBuffersEqualHashes | src/commonMain/kotlin/Video.kt:82-101 | Equal `Buffer`s have equal hash codes. |
| Video.Feed | src/commonMain/kotlin/Video.kt:22-26 | The `Buffer` holds the packet bytes, and its window is the packet minus its 2-byte header. A packet shorter than 2 bytes gives a negative length. |
| Video.CopyStep | src/commonMain/kotlin/Video.kt:40-52 | Each pass copies at least one byte and keeps the offset below the frame size. A frame is emitted exactly when the buffer is full, and the offset is then 0. |
| Video.FillSizes | src/commonMain/kotlin/Video.kt:38-53 | The buffer keeps its size, and the offset stays inside it. |
| Video.FillConsumesChunk | src/commonMain/kotlin/Video.kt:38-53 | The whole chunk is consumed: the bytes of the frames emitted, plus the new offset, equal the old offset plus the chunk size. |
| Video.FillFrameSizes | src/commonMain/kotlin/Video.kt:49-50 | Every frame emitted is a full buffer. |
| Video.FillCounts | src/commonMain/kotlin/Video.kt:38-53 | From offset `o`, a chunk of `n` bytes emits `(o + n) / F` frames and leaves the offset at `(o + n) % F`. |
| Video.FillWithinFrame | src/commonMain/kotlin/Video.kt:40-46 | If `o + n < F`, the chunk lands at `[o, o + n)`, every other position is unchanged, and nothing is emitted. |
| Video.SourcesAgreeWithinFrame | src/commonMain/kotlin/Video.kt:44 | Copying from index 0 does no harm while a chunk ends within the current frame. |
| Video.SourcesAgreeAcrossChunks | src/commonMain/kotlin/Video.kt:38-53 | Over a whole stream whose chunks each end within the frame they start in, copying from index 0 gives exactly what copying from the cursor gives. |
| Video.AsWrittenKeepsSlicesWhenChunksFitFrames | src/commonMain/kotlin/Video.kt:30-56 | As written, a stream whose chunks each end within their frame still yields `total / F` frames, frame `k` being stream bytes `[kF, (k+1)F)`: only a chunk that crosses a frame boundary goes wrong. |
| Video.AsWrittenRepeatsChunkStart | src/commonMain/kotlin/Video.kt:44 | A chunk of two frames emits its first frame twice; copying from the cursor emits its two halves. |
| Video.AsWrittenCopiesWholeArray | src/commonMain/kotlin/Video.kt:40 | The whole array, not just its window, goes into the frame and moves the offset. |
| Video.FillFromCursorKeepsBytes | src/commonMain/kotlin/Video.kt:38-53 | With the copy from the cursor, the frames emitted followed by the pending bytes are the old pending bytes followed by the chunk. |
| Video.FillAllKeepsBytes | src/commonMain/kotlin/Video.kt:30-56 | Across any number of chunks, copying from the cursor keeps every byte, in order. |
| Video.FillAllFrameSizes | src/commonMain/kotlin/Video.kt:30-56 | Across any number of chunks, every frame is a full buffer. |
| Video.ChunkBoundaryIndependence | src/commonMain/kotlin/Video.kt:30-56 | With the copy from the cursor, and a stream length that is a multiple of `F`: however the stream is cut into chunks, it yields `total / F` frames, frame `k` is stream bytes `[kF, (k+1)F)`, and the buffer ends empty. |
| Video.FrameAssembler.constructor | src/commonMain/kotlin/Video.kt:31-32 | The frame buffer is a fresh, zeroed array of `960 * 720 * 3` bytes, with offset 0. |
| Video.FrameAssembler.ProcessChunk | src/commonMain/kotlin/Video.kt:33-55 | The loop as written, for one chunk. The new buffer, offset and frames are those of `Fill` from index 0 over `data.size` bytes, with `(o + n) / F` frames and offset `(o + n) % F`. Every array emitted is the one reused buffer. |
| Video.FrameAssembler.ProcessChunkFixed | src/commonMain/kotlin/Video.kt:33-55 | The loop as intended: it takes the window and copies from the cursor. Every byte of the window comes out, in order, in the frames or the pending bytes. |
| Video.FrameAssembler.Run | src/commonMain/kotlin/Video.kt:36-53 | The do-while loop over the array leaves the state that `Fill` defines. |
| Video.FrameAssembler.Pass | src/commonMain/kotlin/Video.kt:38-53 | One pass copies at least one byte, and the state it leaves still runs on to the loop's result. |
| Video.FrameAssembler.CopyPass | src/commonMain/kotlin/Video.kt:40-52 | One pass updates the array, the offset and the cursor as `CopyStep` says, and reports whether it emits. |
| Video.CopyInto | src/commonMain/kotlin/Video.kt:44 | `copyInto` writes the bytes at the offset and leaves the rest of the array unchanged. |
| Video.ResumesStep | src/commonMain/kotlin/Video.kt:38-53 | One pass keeps the loop invariant. |

## Left out

- Sockets: creation, binding, `send`/`receive` and `SelectorManager`. The model works on the
  sequence of datagrams received. Whether the socket closes after them or the time budget of
  `withTimeout` runs out is a parameter of `SendCmd`.
- Lazy binding of the state and video sockets, and the lack of serialisation between
  concurrent commands: both are concurrency.
- `readState` and `readVideo`, the receive loops around them, and `println` logging: I/O only.
- Float parsing of `baro`, `time`, `agx`, `agy` and `agz`. The model stores the value text and
  accepts any text. A value that `toFloat()` rejects would make the constructor throw, and the
  model does not capture that.
- `readText`'s charset decoding and its bounds of 2 to 256 characters: datagram texts are
  already-decoded strings.
- `toInt()` also accepts non-ASCII Unicode digits. `KotlinText.ParseInt` accepts only `0`–`9`.
- `TelloVideoPacket.readVideoFrame`, the ffmpeg process and the `Flow`/`flatMapConcat` wrapping
  around the reassembly loop. A chunk is a `Buffer` value, and the state carried across
  chunks lives in `FrameAssembler`.
- `Buffer.equals`: the identity and class checks (lines 84-85) are subsumed by comparing two
  `Buffer` values, because a `Buffer` value cannot be `null` or of another class.
- Video.FrameAssembler.ProcessChunk: the list `emitted` stands for the arrays handed to `emit`.
  Every entry is the reused buffer, so a frame read after the next chunk has been copied in
  shows the newer bytes. `frames` records each frame's contents at the moment it was emitted.
- The methods of `FrameAssembler` and the lemmas about `Fill` hold for any frame size `F > 0`.
  The constructor allocates the client's `FULL_FRAME_SIZE`.
- TelloCommands.ReverseBytes: stated on the two's-complement bytes of `int16` values, not on a
  16-bit bit-vector type.
- The drone's own parser of command texts is not part of this model. `TelloCommands.ReadCommand`
  is a reference reader written for these proofs.

## Findings

| source | as written | input that shows it | evidently intended | confidence | as-written member | corrected member |
|---|---|---|---|---|---|---|
| src/commonMain/kotlin/Video.kt:44 | every copy takes bytes from index 0 of the chunk (`copyInto(buffer, offset, 0, copiedLength)`) | an empty frame buffer of `F` bytes and one chunk of `2F` bytes whose two halves differ: both frames emitted are the first half | copy from the cursor `itOffset`, so that frame `k` is bytes `[kF, (k+1)F)` of the stream | not executed; proved about the model | Video.AsWrittenRepeatsChunkStart | Video.FrameAssembler.ProcessChunkFixed |
| src/commonMain/kotlin/Video.kt:40 | the chunk size is `it.data.size`, the whole array, and the window `offset`/`length` is ignored | a chunk `Buffer(buffer, 0, read)` with `read < buffer.size`, as the JVM/Android reader emits (src/androidMain/kotlin/Video.kt:25): the stale bytes after `read` are copied as video | copy the `length` bytes from `offset` on | not executed; proved about the model | Video.AsWrittenCopiesWholeArray | Video.FrameAssembler.ProcessChunkFixed |

`Video.ChunkBoundaryIndependence` states the intended property for any number of chunks: a
stream cut anywhere into chunks gives the frames that are the stream's consecutive slices.
