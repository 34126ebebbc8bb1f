# BLE OTA transfer, modelled in Dafny

This project models `ota.py`, a Python tool that uploads a firmware image to a device over
Bluetooth Low Energy.

- **Handshake.** The tool sends RESET (0xFD), then SIZE (0xFE) with the image length as four
  big-endian bytes, then INFO (0xFF) with the block count and the frame payload size (MTU = 500).
- **Blocks.** The device then asks for blocks of PART = 16000 bytes through notifications.
  `send_part` sends one block as DATA frames (0xFB, frame index, up to 500 payload bytes). It
  closes the block with an acknowledged COMPLETE marker (0xFC, block length, block index, two
  big-endian bytes each).
- **Notifications.** `handle_rx` reacts to the device:
  - 0xAA starts a transfer: every block in ascending order for mode 1, block 0 otherwise;
  - 0xF1 requests one block;
  - 0xF2 reports installation;
  - 0x0F carries the UTF-8 result text and ends the session.
- **Address check.** `isValidAddress` checks the device address given on the command line.

Modules:

- `Wrappers`: the `Option` type.
- `Wire`:
  - big-endian fields, including the masked, wrapping 32-bit length;
  - one constructor per frame kind and what the device decodes from each;
  - the handshake.
- `Segmentation`:
  - the block arithmetic: `math.ceil(len / PART)`, block bounds cut back to the image length;
  - the DATA framing of a block;
  - `BlockWrites`, the function specifying what one `send_part` call writes;
  - `AllBlocks`, what the mode-1 loop writes;
  - `Payload` and `Markers`, the image bytes and the completed block indices that a log of
    writes carries.
- `Utf8`: strict UTF-8 well-formedness. It decides whether `str(result, 'utf-8')` raises.
- `Session`: the class `OtaSession`.
  - It holds the transfer state that `ota.py` keeps in globals: `fileBytes`, `fileParts`,
    `total` and `end`.
  - The BLE client becomes an append-only `log` of writes, each with its acknowledgement flag.
  - The constructor writes the handshake.
  - `SendPart`, `SendFullFrames` and `DataFrameBytes` follow the nested loops of `send_part`.
    `SendPart` is proved to write exactly `BlockWrites`.
  - `HandleRx` is `handle_rx`.
- `Address`: both regular expressions of `isValidAddress`, written out as matchers with the
  semantics of Python's `re.search`:
  - alternation binds loosest;
  - `$` also matches before a final newline.

  `ValidAddressForms` proves the check equal to two plain forms: the 17-character
  `XX:XX:XX:XX:XX:XX` form (':' and '-' may be mixed) and the 36-character 8-4-4-4-12 UUID form.

## Model

| member | source | states |
|---|---|---|
| Wire.Be16 | ota.py:134 | `[n/256, n%256]` is two bytes that decode back to n, for every n below 65536 |
| Wire.Be32 | ota.py:156 | the four masked shift bytes are four bytes that decode to the length modulo 2^32 |
| Wire.Be16Injective | ota.py:161 | every two-byte field is the encoding of the value it decodes to |
| Wire.Be32Injective | ota.py:156 | every four-byte field is the encoding of the value it decodes to, and that value is below 2^32 |
| Wire.HandshakeDecodes | ota.py:149-162 | the handshake is exactly RESET, SIZE, INFO, all unacknowledged; SIZE decodes to the length modulo 2^32; INFO decodes to the block count and MTU |
| Wire.SizeFrameDecodeInverse | ota.py:156-157 | an unacknowledged frame that decodes as SIZE with value n is the SIZE frame of n |
| Wire.InfoFrameRoundTrip | ota.py:161-162 | INFO decodes to its two fields; an unacknowledged frame decoding to them is that INFO frame |
| Wire.MarkerFrameRoundTrip | ota.py:134-135 | the COMPLETE marker decodes to block length and index; an acknowledged frame decoding to them is that marker |
| Wire.MarkerFrameBytes | ota.py:134-135 | the marker spelled out byte by byte is the acknowledged COMPLETE frame of the block length and index |
| Wire.DataFrameRoundTrip | ota.py:124-133 | a DATA frame decodes to its index and payload and never decodes as a marker |
| Segmentation.BlockCount | ota.py:155 | the block count is the least n with n * PART >= len |
| Segmentation.BlockPayload | ota.py:118-121 | a block is the slice from position * PART to min((position + 1) * PART, len), at most PART bytes |
| Segmentation.BlockRange | ota.py:118-121 | every block below the count is non-empty; blocks are contiguous; all but the last hold exactly PART bytes; the last ends at the image end |
| Segmentation.BlockLengthSumPrefix | ota.py:118-121 | blocks 0..n-1 together hold min(n * PART, len) bytes |
| Segmentation.BlockLengthsSumToImage | ota.py:118-121 | the lengths of all blocks add up to the image length |
| Segmentation.DataFramesCount | ota.py:122-133 | a block is sent as `len div MTU` full frames, plus one frame only when `len mod MTU` is non-zero |
| Segmentation.DataFramesAt | ota.py:123-133 | frame i carries index i and the slice [MTU * i, min(MTU * (i + 1), len)) |
| Segmentation.DataFramesPayload | ota.py:122-133 | the DATA frames of a block carry exactly its bytes, in order, and no marker |
| Segmentation.BlockFrameCount | ota.py:117-135 | frame count = full + remainder + 1; the last write is the acknowledged marker decoding to (block length, position) |
| Segmentation.BlockFrameAt | ota.py:122-133 | frame i is an unacknowledged DATA frame with index i and the matching image slice; full frames hold MTU bytes; the remainder frame holds `len mod MTU` |
| Segmentation.FullFrameAt | ota.py:123-127 | full frame i carries the MTU image bytes from position * PART + MTU * i |
| Segmentation.RemainderFrameAt | ota.py:128-133 | the remainder frame has index `len div MTU` and carries the rest of the block |
| Segmentation.BlockWritesShape | ota.py:117-135 | the whole shape of one block's writes: counts, indices, slices, flags, no empty frame, one marker last |
| Segmentation.BlockWritesCarryBlock | ota.py:117-135 | one block's writes carry exactly the block's bytes and report exactly that block complete |
| Segmentation.AllBlocksMarkers | ota.py:74-76 | sending blocks 0..n-1 in turn reports blocks 0..n-1 complete, each once, in ascending order |
| Segmentation.AllBlocksPayload | ota.py:74-76 | sending blocks 0..n-1 in turn carries the first min(n * PART, len) image bytes, in order |
| Segmentation.AllBlocksCarryImage | ota.py:74-76 | the mode-1 transfer carries the whole image and reports every block complete once, in order |
| Segmentation.FortyThousandByteImage | ota.py:117-135 | a 40000-byte image has 3 blocks of 16000/16000/8000 bytes, sent as 33/33/17 writes of full frames plus marker |
| Utf8.EncodeScalarIsOneSequence | ota.py:91 | the UTF-8 encoding of every scalar value is read as exactly one well-formed sequence, whatever follows |
| Utf8.ConcatIsUtf8 | ota.py:91 | well-formed text followed by well-formed text decodes |
| Utf8.AsciiIsUtf8 | ota.py:91 | 7-bit ASCII result text decodes |
| Utf8.ContinuationFirstIsIllFormed | ota.py:91 | text starting with a continuation byte raises |
| Utf8.IllFormedExamples | ota.py:91 | an overlong NUL and an encoded surrogate raise, whatever follows them |
| Session.OtaSession.constructor | ota.py:149-162 | a new session holds the image, its block count as `fileParts` and `total`, `end` still set, and a log of exactly the three handshake frames |
| Session.OtaSession.SendData | ota.py:137-138 | one write, with its acknowledgement flag, is appended to the log |
| Session.OtaSession.SendPart | ota.py:117-135 | `send_part` appends exactly `BlockWrites(image, position)` to the log |
| Session.OtaSession.SendFullFrames | ota.py:122-127 | the full-frame loop appends the first `len div MTU` frames of the block |
| Session.OtaSession.DataFrameBytes | ota.py:124-132 | the byte-by-byte append loop builds the DATA frame of the given image slice |
| Session.OtaSession.SendAllBlocks | ota.py:74-76 | the mode-1 loop appends the writes of blocks 0..fileParts-1, block after block |
| Session.OtaSession.HandleRx | ota.py:69-93 | reaction and writes per opcode: 0xAA (divides by zero on an empty image, else all blocks or block 0), 0xF1 (the requested block), 0xF2, 0x0F (clears `end` only if the text decodes), others ignored |
| Session.ResultBytes | ota.py:88-90 | the copy loop yields every byte after the opcode |
| Address.PairsPrefixForm | ota.py:182-183 | `([hex]{2}[:-]){n}[hex]{2}` matches at the start exactly when the first 3n + 2 characters have the pair form |
| Address.DottedGroupsLength | ota.py:184-186 | the dotted alternative matches only strings of 14 * 17 = 238 characters |
| Address.MacSearchAt17 | ota.py:182-186 | on 17 characters the first expression is found exactly for the pair form |
| Address.QuadsThenTwelveForm | ota.py:187 | `([hex]{4}-){3}[hex]{12}` matches exactly the 4-4-4-12 form |
| Address.UuidBodyForm | ota.py:187 | the UUID body matches exactly the 8-4-4-4-12 form |
| Address.UuidSearchAt36 | ota.py:187 | on 36 characters the second expression is found exactly for the bare UUID form |
| Address.ValidAddressForms | ota.py:178-206 | `isValidAddress` holds exactly for the 17-character pair form and the 36-character UUID form, never for None |
| Address.MacAddressExample | ota.py:200-201 | "AA:BB:CC:DD:EE:FF" is valid |
| Address.UsageAddressExample | ota.py:222 | the usage line's "01:23:45:67:89:ab" is valid |
| Address.UuidAddressExample | ota.py:203-204 | the service UUID string is a valid address |
| Address.InvalidAddressExamples | ota.py:195-206 | a plain word, a braced UUID and None are rejected |

## Left out

- BLE itself is not modelled: device lookup, connecting, subscribing to notifications and
  `handle_disconnect` (ota.py:60-67, 140-146). The client is replaced by the `log` of writes.
- asyncio is not modelled: the awaits, `asyncio.sleep`, the `while end` wait and the disconnect
  event (ota.py:147, 164-167). So is any interleaving of notifications during an await; each
  `HandleRx` call runs to completion before the next.
- Reading the firmware file and the command line are not modelled (ota.py:55-57, 209-222). The
  image is the constructor's parameter.
- `printProgressBar` (ota.py:96-115) is terminal output. Only its division by zero matters:
  - for 0xAA on an empty image it raises before anything is sent, and the model reports
    `ProgressFault`;
  - for 0xF1 on an empty image it raises after the block has been sent, so the log is the same
    and the model reports `BlocksSent`.
- Session.OtaSession.HandleRx: notifications too short for the bytes their opcode reads raise
  IndexError in the code. They are excluded by the precondition `Readable`.
- Session.OtaSession.HandleRx: a 0xF1 request for a block that starts beyond the image end is
  not checked by the code. The code then fails building a bytearray or indexing the image. Such
  requests are excluded by the precondition `Sendable`. A request for the block that starts
  exactly at the image end is allowed, and sends an empty block (a marker of length 0).
- Session.OtaSession.constructor: an image of 65536 blocks or more makes the code's INFO
  bytearray raise. Such images are excluded by the precondition.
- Python's `print` of the result text and of the transfer mode is not modelled. The result text
  is returned in `Finished`.
- The code has no states for a completed or failed transfer beyond the `end` flag. The model
  keeps only that flag, as `running`.
