# Contour Wall: a verified model of the LED frame pipeline

The Contour Wall is an LED wall made of six tiles. Each tile is a 20x20 grid
of RGB LEDs behind a serial link. Its LEDs are chained in four horizontal
bands of five rows, and inside a band the chain runs down each column of five
LEDs in turn. Logical row x therefore starts at LED (x div 5)*100 + (x mod 5),
and every step to the next column skips five LEDs.

A frame for one tile is 1200 bytes: three channel bytes per LED, in chain
order. The drivers turn a logical 20x20x3 grid (or a 40x60 composite of six
tiles) into exactly those bytes.

This project models in Dafny:

- **The wiring table.** It has three copies, one in the core library, one in
  the stand-alone Rust driver and one in the Python driver. The model proves
  that the table is a bijection on the 1200 frame offsets, and that each copy
  computes it.
- **The composite splitter.** It divides a 7200-byte buffer into six tile
  frames, and the model proves where every byte goes.
- **The tile protocol** of the core library. Each of its seven commands is
  modelled with:
  - its command byte;
  - its checksum, the byte sum modulo 256;
  - its reply decoding through the status-code table;
  - the "Ellie" greeting check;
  - frame-time pacing.
- **Wall-level code:**
  - discovering the tiles and placing each one by the identifier it reports;
  - the fan-out of `show`, `solid_color` and `update_all` to every tile.
- **The two single-tile drivers:**
  - the Rust driver, whose frame carries a trailing checksum;
  - the Python driver, whose frame does not.
- **Small programs on top:**
  - the on-screen emulator;
  - the person tracker of the Halloween silhouette show;
  - the bitmap-font text writer;
  - the walking-dot demo.

Serial ports are modelled by `Serial.Port`, which records:
- the bytes written;
- the bytes the device will send back within the read deadline;
- whether the device is gone;
- the outcome of each coming write. A write can fail on one call and go
  through on the next; once the recorded outcomes run out, writes go
  through while the device is there.

Every tile command checks each of its writes and returns ErrorInternal at
the first one that fails. The `...Exchange` functions of `TileDriver` state
what a whole command writes and returns on a given link state.

The clock is a parameter (`now`), and a sleep is returned as a computed delay.

| file | module | models |
|---|---|---|
| common.dfy | Common | bytes, options, the byte-sum checksum and its wrapping fold |
| wiring.dfy | Wiring | the band formula, the wiring bijection, frame layout (`Scatter`) |
| util.dfy | Util | lib/cw-core/src/util.rs |
| status_code.dfy | StatusCodes | lib/cw-core/src/status_code.rs |
| serial.dfy | Serial | the serial link as the drivers see it (lib/cw-core/src/tile.rs read/write helpers) |
| tile.dfy | TileDriver | lib/cw-core/src/tile.rs |
| wall.dfy | Wall | lib/cw-core/src/lib.rs |
| contourwall_rs.dfy | RustWall | lib-rust/contourwall/src/main.rs |
| contourwall_py.dfy | PyWall | lib/contourwall.py |
| emulator.dfy | Emulator | lib/wrappers/python/contourwall_emulator.py |
| tracker.dfy | Tracker | lib/wrappers/python/halloweengif.py (`PersonTracker`, `get_track_color`) |
| font.dfy | Font | font/font.py |
| walking.dfy | Walking | lib/walking.py |

## Model

| member | source | states |
|---|---|---|
| Common.WrappingAdd | lib-rust/contourwall/src/main.rs:49 | `wrapping_add` on `u8` is addition modulo 256 |
| Common.WrappingFoldIsChecksum | lib/cw-core/src/tile.rs:75 | folding bytes one at a time with `wrapping_add` yields the sum of all of them modulo 256 |
| Common.ChecksumTripleStep | lib-rust/contourwall/src/main.rs:49 | adding a pixel's three channels to the running checksum gives the checksum of the prefix three bytes longer |
| Wiring.RowStart | lib/cw-core/src/util.rs:22-27 | the first LED of logical row x lies below 305 |
| Wiring.RowStartIsBand | lib/cw-core/src/util.rs:22-27 | the four row ranges of the `match` are exactly the bands: row x starts at (x div 5)*100 + x mod 5 |
| Wiring.Led | lib/cw-core/src/util.rs:29-34 | pixel (x, y) is LED RowStart(x) + 5y, which is below 400 |
| Wiring.LedInjective | lib/cw-core/src/util.rs:21-34 | distinct pixels are wired to distinct LEDs |
| Wiring.LedParts | lib/cw-core/src/util.rs:21-34 | an LED number gives back the band, the row in the band and the column of its pixel |
| Wiring.LogicalOfPhysical | lib/cw-core/src/util.rs:19-48 | the inverse table recovers the logical channel from its frame offset |
| Wiring.PhysicalOfLogical | lib/cw-core/src/util.rs:19-48 | every frame offset is the image of the channel the inverse table names |
| Wiring.PhysicalOffsetIsBijection | lib/cw-core/src/util.rs:19-48 | the 1200-entry table is a permutation of 0..1199: all entries are in range, no two are equal, and every offset is hit |
| Wiring.PhysicalOffsetAt | lib/cw-core/src/util.rs:36-45 | the entry of channel c of pixel (x, y) is 3*Led(x, y) + c |
| Wiring.PhysicalOffset | lib/cw-core/src/util.rs:36-45 | the frame offset of a logical channel is inside the 1200-byte frame and carries the same colour channel |
| Wiring.LogicalOffset | lib/cw-core/src/util.rs:19-48 | the inverse table names a logical channel inside the frame, of the same colour channel; `LogicalOfPhysical` and `PhysicalOfLogical` make it the inverse |
| Wiring.WiringTable | lib/cw-core/src/util.rs:19-48 | the table has one entry per logical channel, 1200 in all; `PhysicalOffsetIsBijection` makes it a permutation |
| Wiring.KnownEntries | lib/cw-core/src/util.rs:137-145 | entries 1199, 60, 300 and 659 are 1199, 3, 300 and 887, the values the unit test checks |
| Wiring.Scatter | lib/cw-core/src/tile.rs:97-103 | a frame laid out from at most 1200 logical bytes always has 1200 entries |
| Wiring.ScatterPlaces | lib/cw-core/src/tile.rs:100-103 | logical byte i lands at frame offset `index_converter_vector[i]` |
| Wiring.ScatterBlank | lib/cw-core/src/tile.rs:97 | an all-blank input leaves the frame all blank |
| Wiring.ScatterRoundTrip | lib/cw-core/src/util.rs:19-48 | reading the frame back through the table recovers every logical byte |
| Wiring.ScatterAppend | lib/cw-core/src/tile.rs:100-103 | placing one more logical byte changes exactly its own frame entry |
| Wiring.PixelOffsets | lib/cw-core/src/util.rs:40-43 | a pixel's three channels occupy three consecutive frame bytes starting at 3*Led |
| Wiring.ScatterPixelStep | lib/contourwall.py:16-18 | writing a pixel's three channels extends the frame of the prefix by those three bytes |
| Util.LedOffsetMatrix | lib/cw-core/src/util.rs:20-34 | the matrix holds 3*Led(x, y) at every pixel |
| Util.GenerateIndexConversionVector | lib/cw-core/src/util.rs:19-48 | the flattened vector holds the wiring table: entry i is the frame offset of logical channel i |
| Util.GridTableIsPhysical | lib/cw-core/src/util.rs:36-45 | a table with 3*Led(x, y) + c at the index of every channel is the wiring table |
| Util.Target | lib/cw-core/src/util.rs:54-57 | every composite byte is pushed to one of the six tile buffers |
| Util.TileColumn | lib/cw-core/src/util.rs:54-57 | buffer t is tile column t mod 3 of tile row t div 3 |
| Util.Source | lib/cw-core/src/util.rs:50-61 | byte p of buffer t comes from a composite index below 7200 |
| Util.Count | lib/cw-core/src/util.rs:50-61 | no buffer receives more than 1200 bytes |
| Util.Split | lib/cw-core/src/util.rs:50-61 | the splitter always yields six buffers |
| Util.CountStep | lib/cw-core/src/util.rs:53-58 | each composite byte is pushed onto its own buffer only, directly after the bytes already there |
| Util.SourceBelow | lib/cw-core/src/util.rs:53-58 | the bytes already in a buffer all come from earlier composite indexes |
| Util.SplitAt | lib/cw-core/src/util.rs:50-61 | byte p of buffer t is composite byte Source(t, p) |
| Util.SplitStep | lib/cw-core/src/util.rs:53-58 | one loop turn turns the split of the first i bytes into the split of the first i + 1 |
| Util.SplitFramebuffer | lib/cw-core/src/util.rs:50-61 | the loop builds exactly the six buffers `Split` describes |
| Util.SplitFullSizes | lib/cw-core/src/util.rs:99-114 | a 7200-byte input yields six buffers of 1200 bytes, as the unit test asserts |
| Util.SplitPlacesByte | lib/cw-core/src/util.rs:53-58 | composite byte i is found in buffer Target(i), at the position its count gives |
| Util.CountMonotone | lib/cw-core/src/util.rs:53-58 | a buffer only grows as more composite bytes are read |
| Util.SplitKeepsOrder | lib/cw-core/src/util.rs:53-58 | each buffer keeps the relative order its bytes have in the composite |
| Util.SplitFirstBytes | lib/cw-core/src/util.rs:116-135 | bytes 0, 2400, 4800, 60, 2460 and 4860 head buffers 0 to 5, as the unit test asserts |
| Util.SplitHead | lib/cw-core/src/util.rs:116-135 | the first byte of buffer t of a full composite is byte Source(t, 0) |
| StatusCodes.New | lib/cw-core/src/status_code.rs:15-28 | decoding succeeds exactly for 0, 1, 2, 3, 50, 51, 100, 101 and 255, and the decoded code encodes back to the byte |
| StatusCodes.AsU8 | lib/cw-core/src/status_code.rs:30-42 | every code encodes to one of the nine known bytes |
| StatusCodes.EncodeDecode | lib/cw-core/src/status_code.rs:15-42 | `new(as_u8(s)) == Some(s)` for every code |
| StatusCodes.DecodeEncode | lib/cw-core/src/status_code.rs:15-42 | `as_u8(new(c).unwrap()) == c` whenever `new(c)` succeeds |
| StatusCodes.AsU8Injective | lib/cw-core/src/status_code.rs:30-42 | no two codes share a byte |
| StatusCodes.DisplayNumber | lib/cw-core/src/status_code.rs:45-58 | the displayed number is the wire byte for every code except Reset, which shows 102 instead of 255 |
| StatusCodes.DisplayDisagreesOnlyForReset | lib/cw-core/src/status_code.rs:40-56 | the display and the wire value disagree exactly for Reset |
| Serial.Port.constructor | lib/cw-core/src/tile.rs:26-34 | an opened link has written nothing yet; its device, write outcomes and pending input are the given ones |
| Serial.Port.Write | lib/cw-core/src/tile.rs:269-272 | the write's outcome is the link's next scripted one: it goes through exactly when the device is there and no fault is scripted for it, then all the bytes are appended; either way one outcome is used up |
| Serial.Port.Read | lib/cw-core/src/tile.rs:237-267 | a read of n bytes succeeds exactly when n bytes arrive in time and returns them; otherwise the input buffer is cleared; nothing is written and the write outcomes are untouched |
| Serial.AfterWrite | lib/cw-core/src/tile.rs:269-272 | a write attempt uses up exactly the first scripted outcome and leaves the device and the input alone |
| Serial.AfterRead | lib/cw-core/src/tile.rs:237-267 | a read of n bytes removes exactly those n bytes from the input, or all of it when fewer are there, and leaves the writes alone |
| Serial.WritesConsumeFaults | lib/cw-core/src/tile.rs:269-272 | k write attempts use up exactly the first k scripted outcomes |
| Serial.WriteOutcome | lib/cw-core/src/tile.rs:269-272 | write number k goes through exactly when the device is there and outcome k is not a fault; past the script every write goes through while the device is there |
| Serial.WritesPastScript | lib/cw-core/src/tile.rs:269-272 | once the script is used up, write attempts leave the link as it is |
| Serial.WritesAdd | lib/cw-core/src/tile.rs:269-272 | j write attempts followed by k more are the same as j + k attempts |
| Serial.Delivers | lib/cw-core/src/tile.rs:269-272 | whether the next write goes through: the device is there and no fault is scripted for it |
| Serial.Writes | lib/cw-core/src/tile.rs:269-272 | the link after k write attempts |
| Serial.Remaining | lib/cw-core/src/tile.rs:237-267 | after a read, the input is the bytes that followed the n read, or empty after a failure |
| TileDriver.PacingDelay | lib/cw-core/src/tile.rs:61-64 | after the sleep at least a frame time has passed since the last write; a positive sleep ends exactly one frame time after it |
| TileDriver.ReplyStatus | lib/cw-core/src/tile.rs:80-86 | a known status byte decodes to its code; a missing or unknown byte gives ErrorInternal |
| TileDriver.DecodeIdentifier | lib/cw-core/src/tile.rs:189-197 | an unknown status gives (ErrorInternal, 0), differing identifier bytes give (NonMatchingCRC, 0), otherwise the status and the identifier |
| TileDriver.ReplyStatusOfCode | lib/cw-core/src/tile.rs:80-86 | a reply holding a code's byte is read back as that code, consuming one byte |
| TileDriver.SolidColorChecksum | lib/cw-core/src/tile.rs:75-76 | once its write goes through, command 1 writes (r + g + b) mod 256 as its last byte |
| TileDriver.SpecificLedsNeedNext | lib/cw-core/src/tile.rs:130-177 | command 3 writes a prefix of [3, n, n] + payload + [checksum]; it writes the payload exactly when its first two writes go through, the tile answers Next and the third write goes through; a cut before the header ends gives ErrorInternal with the input untouched |
| TileDriver.FullFrameLayout | lib/cw-core/src/tile.rs:97-117 | once both writes of the full-frame path go through, command 2 writes 1202 bytes: 2, each logical byte at one past its wiring offset, and the checksum |
| TileDriver.SteadySpecificLeds | lib/cw-core/src/tile.rs:130-177 | on a link whose writes all go through, command 3 writes its header and, exactly when the tile answers Next, the payload and checksum, returning the last reply |
| TileDriver.Cut | lib/cw-core/src/tile.rs:76-78 | a command stopped by a failed write returns ErrorInternal, having sent only what earlier writes sent |
| TileDriver.Replied | lib/cw-core/src/tile.rs:80-86 | a command whose writes went through returns the status of the one-byte reply and leaves the write outcomes alone |
| TileDriver.SolidColorExchange | lib/cw-core/src/tile.rs:74-87 | command 1 writes nothing and gives ErrorInternal when its single write fails, and otherwise writes [1, r, g, b, checksum] |
| TileDriver.SpecificLedsExchange | lib/cw-core/src/tile.rs:130-177 | what command 3 writes is always a prefix of [3, n, n] + payload + [checksum], empty exactly when the first write fails; the device is left as it was |
| TileDriver.UpdateAllExchange | lib/cw-core/src/tile.rs:89-128 | command 2 writes nothing exactly when its first write fails, giving ErrorInternal; whatever it writes starts with 2 |
| TileDriver.SetIdentifierExchange | lib/cw-core/src/tile.rs:200-219 | command 5 writes nothing and gives ErrorInternal when its write fails, and otherwise writes [5, id, id] and returns the reply status |
| TileDriver.Steady | lib/cw-core/src/tile.rs:269-272 | a link whose device is there and on which no write fails |
| TileDriver.Greeting | lib/cw-core/src/tile.rs:44-53 | the pending input begins with the five bytes of "Ellie" |
| TileDriver.CheckedSum | lib/cw-core/src/tile.rs:98-103 | the non-wrapping `u8` sum of a debug build, None from the first overflow on; `CheckedSumFits` and `CheckedSumOverflows` state its meaning |
| TileDriver.CheckedSumFits | lib/cw-core/src/tile.rs:98-103 | the non-wrapping `u8` sum survives exactly the buffers whose sum fits in a byte, and then equals the checksum |
| TileDriver.CheckedSumOverflows | lib/cw-core/src/tile.rs:101 | the buffer [255, 1] overflows the `u8` sum, while its checksum is 0 |
| TileDriver.SpecificLedsLengthAsWritten | lib/cw-core/src/tile.rs:136-140 | the assertion as written accepts exactly one payload length, 1275 bytes (255 LEDs) |
| TileDriver.SpecificLedsLength | lib/cw-core/src/tile.rs:136-142 | the intended check accepts payloads of at most 1275 bytes, so the LED count fits its byte |
| TileDriver.DeltaPayloadsFailLengthCheck | lib/cw-core/src/tile.rs:108-111 | every delta payload of command 2 fails the check as written and passes the intended one |
| TileDriver.Init | lib/cw-core/src/tile.rs:26-56 | a port that cannot be opened gives FailedToOpenConnection; otherwise the tile is kept exactly when the first five bytes read are "Ellie", with frame time 33, the wiring table and an all-zero previous frame |
| TileDriver.Tile.constructor | lib/cw-core/src/tile.rs:36-43 | a new tile has frame time 33, the wiring table, an all-zero previous frame and the clock as its last write time |
| TileDriver.Tile.ReadStatus | lib/cw-core/src/tile.rs:80-86 | reads one reply byte and returns the status it decodes to |
| TileDriver.Tile.Command0Show | lib/cw-core/src/tile.rs:58-72 | sleeps the pacing delay and writes [0]; a failed write gives ErrorInternal and keeps the last write time, a delivered one gives Ok and moves it; one write outcome is used up and the frame time and previous frame are kept |
| TileDriver.Tile.Command1SolidColor | lib/cw-core/src/tile.rs:74-87 | does exactly what `SolidColorExchange` describes on the link it starts from: bytes written, status returned and link left behind |
| TileDriver.Tile.Command2UpdateAll | lib/cw-core/src/tile.rs:89-128 | does exactly what `UpdateAllExchange` describes: each write is checked and a failed one returns ErrorInternal at once, as the source does after lines 91, 117 and, on the delta path, 132, 143 and 167 |
| TileDriver.Tile.ArrangeFrame | lib/cw-core/src/tile.rs:97-103 | the 1201-byte buffer holds the laid-out frame with 0 last, and the running sum is the checksum |
| TileDriver.Tile.Command3UpdateSpecificLed | lib/cw-core/src/tile.rs:130-177 | does exactly what `SpecificLedsExchange` describes: writes 3, the LED count twice, then the payload and its checksum only after a Next reply, stopping with ErrorInternal at the first write that fails |
| TileDriver.Tile.PayloadChecksum | lib/cw-core/src/tile.rs:159-162 | the loop sums the payload into its byte-sum checksum |
| TileDriver.Tile.Command4GetTileIdentifier | lib/cw-core/src/tile.rs:179-198 | writes [4] and decodes a three-byte reply; a failed write gives (ErrorInternal, 0) with nothing read, a short reply gives (ErrorInternal, 0) with the input cleared |
| TileDriver.Tile.Command5SetTileIdentifier | lib/cw-core/src/tile.rs:200-219 | identifier 0 gives Error before anything is written or read; otherwise it does exactly what `SetIdentifierExchange` describes |
| TileDriver.Tile.Command6MagicNumbers | lib/cw-core/src/tile.rs:221-229 | returns the first five bytes received, or five zeros when they do not arrive; it writes nothing |
| Wall.IdentifierReply | lib/cw-core/src/lib.rs:130-145 | a link yields an identifier exactly when it greets with "Ellie", its command 4 write goes through, and it answers with two equal identifier bytes and Ok |
| Wall.ReportOf | lib/cw-core/src/lib.rs:125-145 | only a USB port that opens, greets and takes the command 4 write reports an identifier |
| Wall.Placement | lib/cw-core/src/lib.rs:142-145 | placement gives six slots, and each filled slot names a candidate |
| Wall.PlacementMeaning | lib/cw-core/src/lib.rs:124-146 | the search stops exactly when some identifier is outside 1..6; otherwise slot k holds the last candidate reporting k + 1, or is empty when none does |
| Wall.Found | lib/cw-core/src/lib.rs:148 | counts the filled slots; all six are filled exactly when the count is six |
| Wall.Flatten | lib/cw-core/src/lib.rs:148 | flattening keeps the filled slots; when all are filled it keeps them slot for slot |
| Wall.FoundSamePlaces | lib/cw-core/src/lib.rs:148-156 | two slot lists filled in the same places count the same |
| Wall.Dispatch | lib/cw-core/src/lib.rs:339-362 | frames exist exactly for 1 or 6 tiles; then there is one 1200-byte frame per tile |
| Wall.DispatchSixTiles | lib/cw-core/src/lib.rs:350-355 | with six tiles, tile i receives buffer i of the split composite |
| Wall.Probe | lib/cw-core/src/lib.rs:125-145 | one search turn reports exactly what `IdentifierReply` predicts for a USB port, together with the opened tile |
| Wall.PlaceTiles | lib/cw-core/src/lib.rs:124-146 | the loop fills the slots as `Placement` says, or stops on the first identifier outside 1..6 |
| Wall.New | lib/cw-core/src/lib.rs:107-174 | `new` builds the wall exactly when all six slots are filled, with tile k on the port that reported k + 1; fewer tiles give MissingTiles |
| Wall.Kept | lib/cw-core/src/lib.rs:211-223 | filtering never lengthens a list |
| Wall.KeptAll | lib/cw-core/src/lib.rs:211-223 | with every flag set, filtering keeps everything |
| Wall.KeptExcludes | lib/cw-core/src/lib.rs:211-223 | a value that no kept element equals is not kept |
| Wall.KeptDistinct | lib/cw-core/src/lib.rs:211-223 | filtering distinct ports keeps them distinct |
| Wall.NewWithPortsAsWritten | lib/cw-core/src/lib.rs:190-241 | as written, the wall is built only when no port greets, and then it is empty; otherwise it stops at the first port that greets, with an index out of bounds |
| Wall.PortsOf | lib/cw-core/src/lib.rs:211-223 | lists the ports of the tiles, one per tile |
| Wall.KeptStep | lib/cw-core/src/lib.rs:213-223 | filtering one more port appends it exactly when its flag is set |
| Wall.PushGreeting | lib/cw-core/src/lib.rs:211-223 | the corrected loop keeps, in order, the tiles of exactly the ports that greet |
| Wall.PushIfGreets | lib/cw-core/src/lib.rs:214-222 | one corrected loop turn appends the port's tile exactly when the port greets |
| Wall.NewWithPorts | lib/cw-core/src/lib.rs:190-241 | the corrected `new_with_ports` drives the greeting ports in port order; with all six greeting, port i drives tile i |
| Wall.SingleNewWithPort | lib/cw-core/src/lib.rs:252-281 | a one-tile wall exactly when the port greets; otherwise the `todo!()` stop |
| Wall.Greets | lib/cw-core/src/lib.rs:214-222 | a port greets when it is open and its input begins with "Ellie" |
| Wall.ContourWallCore.constructor | lib/cw-core/src/lib.rs:170-173 | the wall holds the tiles it is given, in order |
| Wall.ContourWallCore.Show | lib/cw-core/src/lib.rs:313-320 | command 0 runs once on every tile: each tile's pacing delay, its [0] write when that write goes through, its last write time, one write outcome used up, and the tile's frame time and previous frame kept |
| Wall.ContourWallCore.SolidColor | lib/cw-core/src/lib.rs:375-387 | command 1 runs once on every tile, each tile's link doing exactly what `SolidColorExchange` describes |
| Wall.ContourWallCore.SendFrames | lib/cw-core/src/lib.rs:350-355 | tile i does exactly what `UpdateAllExchange` describes for frame i |
| Wall.ContourWallCore.UpdateAll | lib/cw-core/src/lib.rs:334-363 | completes exactly when there are 1 or 6 tiles, and then every tile receives command 2 with its `Dispatch` frame |
| RustWall.LowByte | lib-rust/contourwall/src/main.rs:46-48 | `as u8` keeps a value below 256 and drops a multiple of 256 otherwise |
| RustWall.FrameWait | lib-rust/contourwall/src/main.rs:55-60 | forced pacing sleeps the whole frame time; otherwise it sleeps what remains of it, if anything |
| RustWall.PacedGap | lib-rust/contourwall/src/main.rs:55-65 | with either pacing rule, consecutive writes are at least a frame time apart |
| RustWall.PixelPlacement | lib-rust/contourwall/src/main.rs:45-48 | channel c of pixel (x, y) is sent at byte 3*index + c, its wiring offset |
| RustWall.ContourWall.constructor | lib-rust/contourwall/src/main.rs:16-35 | a zero grid, the wiring matrix, a 1200-byte transmit size and the clock as the last write time |
| RustWall.ContourWall.GenerateIndexConversionMatrix | lib-rust/contourwall/src/main.rs:78-95 | the matrix holds Led(x, y) at every pixel, without the factor 3 |
| RustWall.ContourWall.EncodeFrame | lib-rust/contourwall/src/main.rs:40-51 | the buffer is the grid's low bytes in wiring order, and the crc is their checksum |
| RustWall.ContourWall.EncodePixel | lib-rust/contourwall/src/main.rs:45-49 | one pixel extends the encoded prefix and its checksum by its three channels |
| RustWall.ContourWall.Show | lib-rust/contourwall/src/main.rs:39-68 | writes the 1200 encoded bytes and the checksum after the pacing sleep when the write goes through, then returns the time since the previous write; writes are a frame time apart; a failed write returns None and keeps the clock |
| RustWall.ContourWall.SetFrameTime | lib-rust/contourwall/src/main.rs:70-72 | sets the frame time and nothing else |
| RustWall.ContourWall.GetFrameTime | lib-rust/contourwall/src/main.rs:74-76 | returns the frame time last set |
| RustWall.TransmissionLayout | lib-rust/contourwall/src/main.rs:40-53 | the transmission is 1201 bytes, with channel c of pixel (x, y) at 3*Led(x, y) + c and the checksum last |
| PyWall.SameFrameAsRust | lib/contourwall.py:13-20 | the Python frame is the Rust transmission without its trailing checksum |
| PyWall.ScatterBytes | lib/contourwall.py:20 | the frame fits `bytes` exactly when the grid does |
| PyWall.ContourWall.constructor | lib/contourwall.py:5-9 | a zero 20x20x3 grid and the wiring matrix |
| PyWall.ContourWall.GenerateIndexConversionMatrix | lib/contourwall.py:22-35 | the matrix holds Led(x, y) at every pixel, entries 0..399 |
| PyWall.ContourWall.Arrange | lib/contourwall.py:13-18 | the list is the grid in wiring order, with no channel reordering |
| PyWall.ContourWall.PlacePixel | lib/contourwall.py:16-18 | one pixel's three values go to 3*index + c |
| PyWall.ContourWall.Show | lib/contourwall.py:11-20 | writes exactly the 1200 laid-out bytes, without a checksum, when the write goes through; a value outside 0..255 stops it before any write is attempted |
| PyWall.ZeroGridFrame | lib/contourwall.py:6-20 | an all-zero grid is written as 1200 zero bytes |
| Emulator.Window.DrawRectangle | lib/wrappers/python/contourwall_emulator.py:39 | a `cv.rectangle` call is recorded after the earlier ones |
| Emulator.Window.Present | lib/wrappers/python/contourwall_emulator.py:45-46 | `imshow` puts the canvas on screen once more |
| Emulator.CellsDrawn | lib/wrappers/python/contourwall_emulator.py:35-42 | a row's first n cells draw 2n rectangles |
| Emulator.CellFill | lib/wrappers/python/contourwall_emulator.py:36-39 | the filled rectangle of a cell: its square on the canvas, in its pixel colour, thickness -1 |
| Emulator.RowsDrawn | lib/wrappers/python/contourwall_emulator.py:34-43 | the rectangles the loops draw for the first rows; `RowsDrawnLength` and `CellDrawnAt` state their count and order |
| Emulator.CellsDrawnAt | lib/wrappers/python/contourwall_emulator.py:36-42 | cell col of a row is filled by rectangle 2*col in its pixel's colour and outlined in black by the next |
| Emulator.RowsDrawnLength | lib/wrappers/python/contourwall_emulator.py:34-42 | one `show` draws 2*rows*cols rectangles |
| Emulator.RowsDrawnKeeps | lib/wrappers/python/contourwall_emulator.py:34-42 | later rows never overwrite what earlier rows drew |
| Emulator.CellDrawnAt | lib/wrappers/python/contourwall_emulator.py:34-42 | cells are drawn in row-major order, fill then border |
| Emulator.CellCovers | lib/wrappers/python/contourwall_emulator.py:36-37 | the cell squares tile the canvas: every canvas point lies in exactly one cell |
| Emulator.CellInCanvas | lib/wrappers/python/contourwall_emulator.py:36-37 | every cell lies inside the `rows*cell_size` by `cols*cell_size` canvas |
| Emulator.ContourWallEmulator.constructor | lib/wrappers/python/contourwall_emulator.py:6-17 | 40 rows, 60 columns, cell size 10, no pushed frames and zero pixels |
| Emulator.ContourWallEmulator.SingleNewWithPortAsWritten | lib/wrappers/python/contourwall_emulator.py:25-31 | a 20x20 zero grid of 20-pixel cells; the new canvas goes to a different attribute than the one `show` draws on |
| Emulator.ContourWallEmulator.SingleNewWithPort | lib/wrappers/python/contourwall_emulator.py:25-31 | a 20x20 zero grid of 20-pixel cells on a 400x400 canvas |
| Emulator.ContourWallEmulator.Show | lib/wrappers/python/contourwall_emulator.py:33-49 | draws every cell, adds rows*cols to `pushed_frames`, shows the canvas once, and sleeps only for a positive `sleep_ms` |
| Emulator.ContourWallEmulator.DrawRow | lib/wrappers/python/contourwall_emulator.py:35-43 | one row's cells drawn and counted |
| Emulator.ContourWallEmulator.FillSolid | lib/wrappers/python/contourwall_emulator.py:51-52 | every pixel becomes (r, g, b); a value outside 0..255 raises and changes nothing |
| Emulator.ResetKeepsWideCanvas | lib/wrappers/python/contourwall_emulator.py:16-31 | after `single_new_with_port` the grid needs 400x400 but the drawing canvas stays 400x600 |
| Tracker.Iou | lib/wrappers/python/halloweengif.py:91-104 | boxes that do not overlap have IoU 0 |
| Tracker.Overlap | lib/wrappers/python/halloweengif.py:91-97 | the shared rectangle of two boxes is not crossed, as the early return of `calculate_iou` tests |
| Tracker.Intersection | lib/wrappers/python/halloweengif.py:91-99 | the area two overlapping boxes share is never negative |
| Tracker.IouSymmetric | lib/wrappers/python/halloweengif.py:91-104 | the IoU does not depend on the order of the boxes |
| Tracker.IouBounds | lib/wrappers/python/halloweengif.py:99-104 | for boxes of non-negative size the IoU lies between 0 and 1 |
| Tracker.IouSelf | lib/wrappers/python/halloweengif.py:99-104 | a box of positive size has IoU 1 with itself |
| Tracker.DistanceSquared | lib/wrappers/python/halloweengif.py:109-132 | the squared distance between box centres is never negative |
| Tracker.Center | lib/wrappers/python/halloweengif.py:109 | the centre of a box of non-negative size lies inside the box |
| Tracker.IouScan | lib/wrappers/python/halloweengif.py:112-121 | a match found by the IoU loop is a track with IoU above 0.3 |
| Tracker.IouScanBest | lib/wrappers/python/halloweengif.py:112-121 | no track overlaps more than the match; with no match, none overlaps more than 0.3 |
| Tracker.IouScanFirst | lib/wrappers/python/halloweengif.py:119-121 | tracks before the match overlap strictly less, so the first of equals wins |
| Tracker.DistanceScan | lib/wrappers/python/halloweengif.py:124-136 | a distance match lies closer than the position threshold |
| Tracker.DistanceScanNearest | lib/wrappers/python/halloweengif.py:124-136 | no track is nearer than the match; with no match, none is nearer than the threshold |
| Tracker.DistanceScanFirst | lib/wrappers/python/halloweengif.py:134-136 | tracks before the match are strictly farther, so the first of equals wins |
| Tracker.IouMatch | lib/wrappers/python/halloweengif.py:112-121 | the IoU match is an existing track with a last box |
| Tracker.IouMatchBest | lib/wrappers/python/halloweengif.py:112-121 | in terms of boxes: the IoU match beats 0.3 and every other track's last box |
| Tracker.DistanceMatch | lib/wrappers/python/halloweengif.py:124-136 | the distance match is an existing track with a last box |
| Tracker.DistanceMatchNearest | lib/wrappers/python/halloweengif.py:124-136 | in terms of boxes: the distance match is under the threshold and no farther than any other track |
| Tracker.Match | lib/wrappers/python/halloweengif.py:112-136 | the matched track, by IoU first and by distance only without an IoU match, is an existing track |
| Tracker.Capped | lib/wrappers/python/halloweengif.py:145-147 | a capped history never exceeds the cap and, for a positive cap, ends with the newest box |
| Tracker.CappedSuffix | lib/wrappers/python/halloweengif.py:145-147 | capping drops at most the oldest box |
| Tracker.SurvivingMembers | lib/wrappers/python/halloweengif.py:151-156 | a track survives cleanup exactly when it is active or within the cap |
| Tracker.Surviving | lib/wrappers/python/halloweengif.py:151-156 | cleanup never lengthens the track list; `SurvivingMembers` says which tracks remain |
| Tracker.Tracks | lib/wrappers/python/halloweengif.py:83-156 | the tracker invariant: tracks listed once, list and histories agree, ids below `next_person_id`, histories within the cap |
| Tracker.ExtendKeepsTracks | lib/wrappers/python/halloweengif.py:145-147 | adding a box keeps the tracker's invariant |
| Tracker.CleanupKeepsTracks | lib/wrappers/python/halloweengif.py:151-156 | cleanup keeps the tracker's invariant |
| Tracker.PersonTracker.constructor | lib/wrappers/python/halloweengif.py:83-86 | no tracks, and the next id is 0 |
| Tracker.PersonTracker.MatchByIou | lib/wrappers/python/halloweengif.py:112-121 | the loop returns the IoU match |
| Tracker.PersonTracker.MatchByDistance | lib/wrappers/python/halloweengif.py:124-136 | the loop returns the distance match |
| Tracker.PersonTracker.GetPersonId | lib/wrappers/python/halloweengif.py:106-149 | returns the matched track, or a new track numbered `next_person_id` and then incremented, so ids are never reused; the track's history ends with the box and stays within the cap |
| Tracker.PersonTracker.OpenTrack | lib/wrappers/python/halloweengif.py:139-142 | a new empty track under the next id, which is then incremented |
| Tracker.PersonTracker.AddBox | lib/wrappers/python/halloweengif.py:145-147 | the box is appended and the oldest dropped beyond the cap |
| Tracker.PersonTracker.CleanupOldTracks | lib/wrappers/python/halloweengif.py:151-156 | deletes exactly the inactive tracks over the cap, keeps the others in order, and keeps the invariant |
| Tracker.PersonTracker.PruneTracks | lib/wrappers/python/halloweengif.py:153-156 | the loop over a snapshot of the ids deletes exactly the doomed tracks |
| Tracker.PersonTracker.PruneTrack | lib/wrappers/python/halloweengif.py:154-156 | one id is deleted exactly when it is inactive and over the cap |
| Tracker.DoomedMembers | lib/wrappers/python/halloweengif.py:151-156 | a track is deleted exactly when it is inactive and over the cap |
| Tracker.Doomed | lib/wrappers/python/halloweengif.py:151-156 | the ids cleanup deletes; `DoomedMembers` says exactly which |
| Tracker.CleanupStep | lib/wrappers/python/halloweengif.py:153-156 | one more id considered by cleanup |
| Tracker.SurvivingDistinct | lib/wrappers/python/halloweengif.py:151-156 | cleanup keeps the track list free of repetitions |
| Tracker.CleanupKeepsCappedTracks | lib/wrappers/python/halloweengif.py:145-156 | as `get_person_id` caps every history, cleanup never deletes a track it built |
| Tracker.SurvivingAll | lib/wrappers/python/halloweengif.py:151-156 | tracks within the cap all survive |
| Tracker.TrackColors.GetTrackColor | lib/wrappers/python/halloweengif.py:178-183 | the colour is palette entry id mod 6, so an id always gets the same colour, and it is recorded for that id |
| Font.Split | font/font.py:10 | `split` yields at least one piece, none holding the separator |
| Font.JoinSplit | font/font.py:10 | joining the pieces of a split gives the text back |
| Font.SplitJoin | font/font.py:10 | splitting separator-free pieces joined by the separator gives the pieces back |
| Font.ParseRow | font/font.py:10 | a CSV line gives one cell per comma-separated piece |
| Font.ParseGlyph | font/font.py:10-11 | a parsed glyph has one row per line, every row as wide as the first, all cells white or black |
| Font.GlyphRoundTrip | font/font.py:10-11 | reading the CSV text of a black-and-white glyph gives the glyph back |
| Font.RowRoundTrip | font/font.py:10 | reading a written CSV line gives the row back |
| Font.Decimal | font/font.py:11 | a number's decimal form is all digits |
| Font.DecimalRoundTrip | font/font.py:11 | `int` of a number's decimal digits gives the number |
| Font.GlyphKey | font/font.py:11 | a key derived from a file name is a valid code point |
| Font.Middle | font/font.py:11 | `name[5:-4]` is what lies between a five-character prefix and a four-character suffix, or empty for a shorter name |
| Font.IsCsv | font/font.py:7 | a glyph file is one whose name ends in ".csv" |
| Font.LoadOne | font/font.py:8-11 | a non-CSV entry is skipped; a CSV entry whose contents or name cannot be read stops the load and changes nothing; loading never removes a glyph |
| Font.LoadAll | font/font.py:6-11 | loading never removes a glyph from the table; `LoadAllMeaning` says what each code point holds |
| Font.KeyOfGlyphFile | font/font.py:7-11 | a file named with a five-character prefix, a code point and ".csv" is loaded under that code point |
| Font.LoadAllStopped | font/font.py:8-11 | after a file raises, later files change nothing |
| Font.LastFile | font/font.py:8-11 | the last file named for a code point is a CSV file with that key |
| Font.LoadAllMeaning | font/font.py:6-11 | after a complete load, each code point holds the glyph of the last file named for it, or its earlier glyph when no file names it |
| Font.LayoutShape | font/font.py:16-22 | line k sits 6k rows below the start; glyphs on a line start at or right of its first column, with a blank column between neighbours |
| Font.Layout | font/font.py:13-22 | at most one glyph is placed per character of the text; `LayoutShape` and `LayoutStops` state where and when it stops |
| Font.LayoutStops | font/font.py:16-22 | a complete layout places one glyph per non-newline character, all of them in the table; a stop on a missing glyph names a character of the text absent from the table, a stop on a glyph that does not fit names one present in it |
| Font.PaintLast | font/font.py:21 | the last glyph placed decides the cells it covers |
| Font.Paint | font/font.py:21 | the value of an image cell after the placements, the last covering placement deciding; `PaintLast` states it |
| Font.Font.constructor | font/font.py:4 | the table starts empty |
| Font.Font.LoadCharacterIndex | font/font.py:6-11 | the loop loads exactly what `LoadAll` describes |
| Font.Font.PutText | font/font.py:13-22 | the frame holds the glyphs `Layout` places; a newline moves six rows down to the start column; a missing glyph raises; the caller's `start` column advances until the first newline |
| Font.Blit | font/font.py:21 | the slice assignment writes the glyph into the cells it covers and nothing else |
| Walking.NextLoc | lib/walking.py:15-26 | after a key the dot is on the grid, at the step or back at (0, 0) |
| Walking.Step | lib/walking.py:15-22 | an arrow moves the dot by one cell along its axis and any other key leaves it |
| Walking.OneLit | lib/walking.py:8-29 | the grid shows the dot in blue at `loc` and is black everywhere else |
| Walking.NextLocMoves | lib/walking.py:15-26 | arrows move the dot by one; other keys leave it; a step off the grid resets it to (0, 0), and only then |
| Walking.OppositeUndoes | lib/walking.py:15-22 | an arrow that stays on the grid is undone by the opposite arrow |
| Walking.OneLitIsBytes | lib/walking.py:8-29 | a grid showing only the dot always fits `bytes` |
| Walking.Start | lib/walking.py:5-9 | the dot starts lit at (0, 0) on an otherwise black grid, and the frame is written when the write goes through |
| Walking.MoveDot | lib/walking.py:13-28 | the old cell is cleared, the dot moves as `NextLoc` says and is lit blue; a grid showing only the dot still does |
| Walking.OnArrowKey | lib/walking.py:11-29 | a key release changes nothing; a key press moves the dot and shows the grid; exactly one lit cell remains, at `loc`, and each show writes the frame when the write goes through |

## Left out

- Opening serial ports, `available_ports` and port enumeration are left out. A port is an object with a record of sent bytes, pending input, a flag for a device that is gone and the outcomes of its coming writes; a port that cannot be opened is `null`.
- Serial.Port.Write: a write either sends all its bytes or none. `write` in `write_over_serial` (lib/cw-core/src/tile.rs:269-272) may accept only a prefix and report success, and `write_all` in the Rust driver may fail after part of the buffer went out; short and partial writes are not modelled.
- Serial.Port.Read: reads the pending input even when the device is gone. In `read_from_serial` (lib/cw-core/src/tile.rs:242 and 249), `bytes_to_read().expect` and `.unwrap()` stop the program when the device has disappeared; that stop is not modelled.
- TileDriver.Tile.Command2UpdateAll: requires at most 1200 logical bytes, as does TileDriver.Tile.ArrangeFrame. The source indexes its 1201-byte buffer through the 1200-entry wiring table (lib/cw-core/src/tile.rs:100-102), so a longer input stops the program; every caller passes at most 1200 bytes.
- RustWall.ContourWall.Show: reads the clock once (`now`). `show` in lib-rust/contourwall/src/main.rs:57-58 reads `elapsed()` twice, and when the frame time is crossed between the two readings the `u64` subtraction underflows, which stops a debug build; that race is not modelled.
- The read deadline of `read_from_serial` (30 ms of polling) is left out. A read succeeds exactly when enough bytes are pending.
- Wall-clock time is left out: `millis_since_epoch` and `Instant` become the `now` parameter, and `thread::sleep` and `time.sleep` are returned as the computed wait. The write itself is taken to be instantaneous.
- TileDriver.Tile.Command0Show: requires a clock that never goes back (`now >= lastSerialWriteTime`), as does Wall.ContourWallCore.Show for every tile. `millis_since_epoch` (lib/cw-core/src/util.rs:8-12) reads the system clock, which can be set back; then `millis_since_epoch() - self.last_serial_write_time` at lib/cw-core/src/tile.rs:61 underflows, which stops a debug build and, in a release build, wraps to a huge timespan that skips the sleep. That case is not modelled.
- The rayon `par_iter_mut` fan-out and `configure_threadpool` are left out. Tiles are driven one after another, which is equivalent because every tile has its own port.
- `extract_mutated_pixels` is not part of this model; its source is not among the files modelled. The delta payload is a parameter (`changed`), and the update of `previous_framebuffer` that it performs is not modelled.
- `lib/cw-core/src/lib.rs` passes `optimize` to a one-argument `command_2_update_all`, so it does not compile as shown. The model gives command 2 an `optimize` parameter that selects the delta path.
- `lib-rust/contourwall/src/main.rs:37` has a stray `fn show()`, and `show` returns a bare `u128` where `Result` is declared. The model follows the evident intent, and a failed `write_all` (`expect`) becomes a result of None.
- `drop`, `str_ptr_to_string`, `configure_logging`, logging calls and the FFI pointer plumbing (`tiles_ptr`, `std::mem::forget`) are left out.
- `hsv_to_rgb`, the YOLO segmentation, video streams and the rest of halloweengif.py outside `PersonTracker` and `get_track_color` are left out: floating-point colour maths and foreign libraries.
- Tracker.Iou: computed as an exact rational, not a double, so rounding of the IoU is not modelled.
- Tracker.DistanceMatch: the `np.hypot` distance is compared through squared distances, so floating-point rounding of the hypotenuse is not modelled.
- Tracker.PersonTracker.constructor: `position_threshold` and `tracking_history_length` are natural numbers.
- Emulator.Window.DrawRectangle: the OpenCV rasterising, the window and `waitKey` are recorded as calls only.
- Emulator.ContourWallEmulator.FillSolid: NumPy's wrapping of out-of-range values in some versions is modelled as the raising behaviour of current NumPy.
- Util.SplitFramebuffer: requires at most 7200 bytes. The source accepts any slice and stops on the first byte that names a seventh buffer (index 7260); its only caller passes exactly 7200.
- Font.GlyphKey: accepts only ASCII digits. Python's `int` also accepts signs, surrounding whitespace, underscores and non-ASCII digits.
- Font.Font.PutText: requires a non-negative start. NumPy would read negative slice starts from the far edge of the image.
- Font.Font.PutText: the frame holds integers, not floating-point values.
- Font.Font.LoadCharacterIndex: `os.listdir` and `open` become the `files` parameter, the directory entries as (name, contents) in listing order.
- Font.Font: glyphs are keyed by code point rather than by character, since the model's characters exclude surrogate code points.
- Walking.OnArrowKey: requires the dot to be on the grid, which the script itself keeps true from its start.
- Walking: the keyboard hook, `keyboard.wait('q')` and `unhook_all` are left out; each event is handed to `OnArrowKey`.
- PyWall.ContourWall: the NumPy grid's 64-bit integers are unbounded integers, so overflow in the grid is not modelled.

## Findings

| source | as written | input that shows it | evidently intended | confidence | as-written member | corrected member |
|---|---|---|---|---|---|---|
| lib/cw-core/src/tile.rs:98-103 | the command 2 checksum (and the command 3 checksum at lines 159-162) is summed with `+=` on `u8`, which stops a debug build on overflow | a frame whose first two bytes are 255 and 1 | a wrapping sum modulo 256, as command 1 and the Rust driver compute it | medium, not executed | TileDriver.CheckedSumOverflows | TileDriver.Tile.ArrangeFrame |
| lib/cw-core/src/tile.rs:136-140 | command 3 asserts that the payload is exactly 255*5 bytes, while its message says no more than 255 LEDs | any delta payload of command 2, which holds fewer than 100 LEDs, e.g. 5 bytes | a payload of at most 255*5 bytes | high, not executed | TileDriver.DeltaPayloadsFailLengthCheck | TileDriver.Tile.Command3UpdateSpecificLed |
| lib/cw-core/src/lib.rs:211-222 | `new_with_ports` assigns `tiles[i]` into a vector that has capacity 6 but length 0 | six ports of which the first greets with "Ellie" | push each opened tile | high, not executed | Wall.NewWithPortsAsWritten | Wall.NewWithPorts |
| lib/wrappers/python/contourwall_emulator.py:30 | `single_new_with_port` stores the 400x400 canvas in `self.matrix`, while `show` draws on the name-mangled `self.__matrix` | `single_new_with_port()` after construction: the canvas stays 400x600 | resize the canvas `show` draws on | medium, not executed | Emulator.ResetKeepsWideCanvas | Emulator.ContourWallEmulator.SingleNewWithPort |
