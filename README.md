# sup2pgm in Dafny

A model of the core of `sup2pgm`, the converter from BluRay SUP subtitle
streams (the presentation graphics stream of the BD-ROM format) to PGM
images. The core has four parts:

- **The packet reader and the four segment parsers** (`sup.c`). The reader is
  a parser over a byte sequence: a `0x5047` marker, a big-endian PTS, DTS,
  segment type and length, then the payload. The parsers fill the
  composition (PCS), palette (PDS), window (WDS) and object-fragment (ODS)
  records. The reader and parsers are classes whose methods fill their
  fields and tables in place. They are proved against pure specification
  functions (`ReadPacket`, `ParsePcs`, `ParsePds`, `ParseWds`, `ParseOds`),
  and each specification function is paired with an encoder and a
  round-trip lemma.
- **The renderer `render_sup_image`** (`sup2pgm.c`). It looks up the object
  and its window, clears the window rectangle, and expands the run-length
  code through a write cursor. The code is given a datatype `Code` with an
  encoder. The decode loop (`Decode`) is proved to terminate, to agree with
  executing the encoded codes (`Execute`), and to keep the new-line rule.
  The imperative renderer writes into the canvas array and is proved equal
  to `RenderImage`.
- **The packet loop of `main`** (`sup2pgm.c`), without its file I/O. The
  class `Converter` holds the canvas, the one code accumulator, the subtitle
  times and the four records. Its methods are proved against the state
  machine `Machine`/`Dispatch`/`Run`. Lemmas about `Run` cover epoch starts,
  fragment accumulation, the end-of-display-set reset, and what is saved.
- **The canvas helpers** (`pgm.c`) and **the SRT timecode** (`srt.c`). The
  canvas helpers are the whole-canvas clear, the region clear and the
  maximum-sample scan; the header fields are shown to read back. The SRT
  timecode splits milliseconds, enforces the hour limit and formats
  `HH:MM:SS,mmm` with a parse-back lemma.

Modules:

- `Wrappers`: `Option`.
- `Bytes`: bytes and big-endian fields.
- `Arith` and `Decimal`: arithmetic and decimal-formatting facts.
- `Sup`: `sup.c`.
- `Pgm`: `pgm.c`.
- `Render`: `render_sup_image`.
- `Srt`: `srt.c`.
- `Sup2Pgm`: the packet loop.

Undefined behaviour of the C code is modelled as a distinguished result,
not as a precondition. The cases are:

- reading code bytes at or past the end of the code buffer's capacity
  (`encoded_img_max_len`);
- writing a run past the end of the canvas;
- indexing the 255-entry palette with 255;
- clearing a window that does not fit the canvas, including a NULL canvas.

The renderer's outcome is then `Undefined` and its status `Fault`. The loop
then sets `halted`, and nothing changes after that. The model also stops
this way when a code needs operand bytes past the end of the gathered code
but inside the buffer's capacity, where the C code reads a stale byte and
carries on (see "## Left out"). `Pgm.ClearRegion`
itself requires that the region fits (`RegionFits`), and its callers check
this first.

Other conventions:

- A NULL canvas is `hasCanvas == false` with an empty canvas.
- A NULL code buffer is a capacity of 0.
- A palette entry is looked up by its position in the table, not by its
  `idx` field, as the C code does.

Points where the code is simpler than the format suggests, which the model follows:

- There is one code accumulator for all objects, not one per object id.
- Rendering happens when a fragment flagged LAST arrives, not at the end
  segment.
- The merge threshold `SUP2PGM_MERGE_THRESHOLD` is never used, so there is
  no time-merge logic.
- The subtitle end time is only ever set to 0.

## Model

| member | source | states |
|---|---|---|
| Bytes.EncodeBe16 | sup.c:82 | a 16-bit field written big-endian reads back as itself (the `ntohs` conversions) |
| Bytes.EncodeBe32 | sup.c:94 | a 32-bit field written big-endian reads back as itself (the `ntohl` conversions) |
| Bytes.FlagBits | sup.h:28-29 | testing the FIRST (0x80) and LAST (0x40) bits of a flag byte is a comparison and a digit of the byte |
| Sup.PtsToMs | sup.c:38-40 | the result is the PTS divided by 90 rounded down: `ms * 90 <= pts < ms * 90 + 90` |
| Sup.ReadPacket | sup.c:68-131 | success exactly when the marker is `0x5047` and the header and `segment_len` payload bytes are all present; on success it consumes 13 + `segment_len` bytes and the payload is those bytes; a wrong marker consumes its 2 bytes; it always advances unless at the end of the input |
| Sup.EncodePacketBytes | sup.c:76-111 | the packet encoder lays out marker, PTS, DTS (big-endian), type, length and payload at the offsets the reader reads them from |
| Sup.ReadEncoded | sup.c:68-131 | reading an encoded packet, whatever precedes and follows it, gives back its header and payload and stops right after it |
| Sup.Packet.constructor | sup.c:43-62 | the header is reset and the segment buffer holds `0xffff` zero bytes |
| Sup.Packet.Init | sup.c:43-55 | the header fields are reset to the marker and zeros |
| Sup.Packet.Read | sup.c:68-131 | status, position and header are those of `ReadPacket`; the buffer starts with the bytes received and the rest of it is untouched |
| Sup.Packet.ReceiveSegment | sup.c:113-128 | the receive loop completes exactly when `segment_len` bytes remain in the input; otherwise it stops at the end of the input; the received bytes are copied in order |
| Sup.Packet.FreadSegment | sup.c:117 | one `fread` returns the smaller of the bytes wanted and the bytes left, and copies them after those already received |
| Sup.Objects | sup.c:207-224 | entry `k` below the object count is read from offset `11 + 8k`; entries past the count keep their stale values |
| Sup.ParsePcs | sup.c:162-227 | parsing succeeds exactly when the payload is at least 11 bytes and its length is `11 + 8 * num_of_objects` |
| Sup.ParseEncodedPcs | sup.c:171-224 | an encoded composition parses back to its fields, the time `pts / 90`, and its objects, with the rest of the table left stale |
| Sup.Pcs.constructor | sup.c:134-156 | a zeroed 255-entry object table, then the init defaults |
| Sup.Pcs.Init | sup.c:134-159 | the record is reset to the init defaults (`frame_rate` and `comp_state` 0xFF), and the object table is kept |
| Sup.Pcs.Parse | sup.c:162-227 | the record and result agree with `ParsePcs` on the packet's payload and PTS |
| Sup.Pcs.ReadObjects | sup.c:207-224 | the table is `Objects` of the payload |
| Sup.Gray | sup.c:281-282 | `gray` is `y * a / 255` rounded down: `g * 255 <= y * a < g * 255 + 255` |
| Sup.GrayBounds | sup.c:281-282 | `gray <= y`, `gray <= a`, full alpha gives `y`, and zero luma or alpha gives 0 |
| Sup.Colors | sup.c:269-283 | entry `k` below the count is read from offset `2 + 5k` in the order idx, y, cr, cb, a; later entries keep their stale values |
| Sup.ParsePds | sup.c:249-286 | parsing fails exactly when the payload is shorter than 2 bytes |
| Sup.ParseEncodedPds | sup.c:258-283 | an encoded palette parses back to its id; the count is the number of entries modulo 256; entry `k` is the k-th entry by position, with its gray; later entries are untouched |
| Sup.PdsIgnoresTrailing | sup.c:268 | fewer than 5 trailing bytes do not change the parsed palette |
| Sup.Pds.constructor | sup.c:230-243 | a zeroed 255-entry colour table with palette id and count 0 |
| Sup.Pds.Init | sup.c:230-246 | id and count reset, colour table kept |
| Sup.Pds.Parse | sup.c:249-286 | the record and result agree with `ParsePds` on the payload |
| Sup.Pds.ReadColors | sup.c:269-283 | the table is `Colors` of the payload |
| Sup.Windows | sup.c:329-347 | entry `k` below the count is read from offset `1 + 9k` as id, x, y, width, height; later entries keep their stale values |
| Sup.ParseWds | sup.c:307-350 | parsing succeeds exactly when the payload is non-empty and its length is `1 + 9 * num_of_windows` |
| Sup.ParseEncodedWds | sup.c:316-347 | an encoded window list parses back to its count and windows |
| Sup.Wds.constructor | sup.c:289-301 | a zeroed 255-entry window table with count 0 |
| Sup.Wds.Init | sup.c:289-304 | count reset, window table kept |
| Sup.Wds.Parse | sup.c:307-350 | the record and result agree with `ParseWds` on the payload |
| Sup.Wds.ReadWindows | sup.c:329-347 | the table is `Windows` of the payload |
| Sup.ParseOds | sup.c:372-431 | success exactly when the payload has 4 bytes and, for a FIRST fragment, 11 bytes, otherwise 5; the raw data starts at 11 (FIRST) or 4 and runs to the end; the object data length is a 24-bit value |
| Sup.ParseEncodedOds | sup.c:382-428 | an encoded fragment parses back to its id, version and flag; a FIRST fragment also gives its data length and size, and any other fragment leaves them 0; the raw data is the fragment's data |
| Sup.Ods.constructor | sup.c:353-369 | the record holds the init defaults |
| Sup.Ods.Init | sup.c:353-369 | the record is reset to the init defaults |
| Sup.Ods.Parse | sup.c:372-431 | the record and result agree with `ParseOds` on the payload |
| Pgm.Clear | pgm.c:11-13 | the first `width * height` bytes become 0 and the rest are unchanged |
| Pgm.ClearRegion | pgm.c:16-27 | the canvas becomes `ClearedRegion` of its old contents |
| Pgm.ClearRow | pgm.c:23-25 | one row of the region is set to 0, nothing else changes |
| Pgm.ClearedRegionAt | pgm.c:16-27 | after the region clear a byte is 0 when it lies in the region and is unchanged otherwise |
| Pgm.InRegionCoordinates | pgm.c:22-24 | lying in the region means `x0 <= x < x0 + w` and `y0 <= y < y0 + h` for `x = k % width` and `y = k / width` |
| Pgm.ClearRegionIdempotent | pgm.c:16-27 | clearing a region twice is clearing it once |
| Pgm.ClearEmptyRegion | pgm.c:22-26 | a region of width or height 0 always fits and clearing it changes nothing |
| Pgm.MaxGray | pgm.c:35-41 | the result bounds every sample; for a non-empty image it is one of the samples, and for an empty one it is 0 |
| Pgm.HeaderRoundTrip | pgm.c:43-45 | the header `P5`, `width height`, `max_gray` parses back to those three numbers and the offset of the samples |
| Decimal.ValueOfZeroPad | srt.c:20 | a zero-padded decimal numeral reads back as its number |
| Srt.Split | srt.c:8-11 | minutes and seconds are below 60 and milliseconds below 1000; the hour fits an `unsigned int` |
| Srt.SplitRoundTrip | srt.c:8-11 | `hour * 3600000 + min * 60000 + sec * 1000 + millis` is the input |
| Srt.RenderTime | srt.c:7-26 | a timecode exactly when the hour is at most 99, and then it has 12 characters |
| Srt.FormatLength | srt.c:20-21 | with hour below 100 the formatted text always has the 12 characters the length check expects |
| Srt.FormatChars | srt.c:20 | the text is two-digit hour, minutes and seconds and three-digit milliseconds, zero-padded, with `:` `:` `,` between |
| Srt.ParseFormat | srt.c:20 | the formatted timecode parses back to its four parts |
| Srt.RenderTimeRoundTrip | srt.c:7-26 | below 100 hours the timecode exists and reads back to the split of the input, which adds up to the input |
| Srt.RenderTimeOfU32 | srt.c:8-16 | for a 32-bit time the hour is exact, and rendering fails exactly from 100 hours on |
| Render.ParseCode | sup2pgm.c:192-229 | the bytes one loop iteration reads are the encoding of the code it returns; it fails only on a `00` escape whose operands run past the end |
| Render.ParseCodeEncoded | sup2pgm.c:192-229 | every encoded code, whatever surrounds it, parses back as itself and its length |
| Render.Write | sup2pgm.c:204-206 | a run is defined exactly when it ends inside the canvas |
| Render.Apply | sup2pgm.c:195-232 | a code keeps the canvas size and never moves back a row |
| Render.Decode | sup2pgm.c:191-234 | the loop terminates (each iteration consumes a code byte) and a finished decode keeps the canvas size |
| Render.DecodeEncoded | sup2pgm.c:191-234 | decoding an encoded list of codes is executing those codes in order |
| Render.NewLineRule | sup2pgm.c:195-198 | `00 00` moves the cursor to `(row + 1) * width + obj_pos_x`, wherever it was |
| Render.ApplyFrame | sup2pgm.c:192-233 | no code moves the cursor before the start of its row or changes a byte before the cursor |
| Render.DecodeKeepsBefore | sup2pgm.c:191-234 | the decoder never writes before the object's first pixel |
| Render.DecodeValues | sup2pgm.c:191-234 | every byte after decoding is its old value, 0, or the gray of a palette entry |
| Render.FirstIndex | sup2pgm.c:158-163 | the index of the first object (or window) among the first `num` whose id matches, or no such one exists; used for both lookups |
| Render.UnmatchedNotPlaced | sup2pgm.c:158-182 | without a matching object, or a matching window for it, the render fails |
| Render.RenderImage | sup2pgm.c:138-237 | -1 exactly when the lookup leaves an empty window or an object left of or above its window; a drawn canvas keeps its size |
| Render.RenderBeforeObject | sup2pgm.c:184-189 | before the object's first pixel, a rendered canvas is the old one with the window rectangle set to 0 |
| Render.FindPlacement | sup2pgm.c:158-173 | the nested lookup loops with their `break`s find `Placement` |
| Render.WriteRun | sup2pgm.c:204-206 | a run writes `n` copies of the value from the cursor and nothing else |
| Render.ReadCode | sup2pgm.c:192-219 | the bytes read in one iteration are `ParseCode`'s |
| Render.ApplyCode | sup2pgm.c:195-232 | the cursor, row and canvas after one iteration are `Apply`'s |
| Render.DecodeInto | sup2pgm.c:188-234 | the decode loop leaves the canvas `Decode` gives, or reports undefined behaviour |
| Render.RenderSupImage | sup2pgm.c:138-237 | the status and canvas are `RenderImage`'s; on -1 the canvas is untouched |
| Sup2Pgm.PcsEpoch | sup2pgm.c:383-416 | an EpochStart or AcquisitionPoint composition leaves a zeroed canvas of its video size, reallocated only when the size changed, start time `pts_msec` and end time 0; any other composition only replaces the record |
| Sup2Pgm.OnPcs | sup2pgm.c:383-417 | a composition never saves a subtitle or halts |
| Sup2Pgm.RenderNow | sup2pgm.c:468-473 | rendering changes only the canvas and possibly halts |
| Sup2Pgm.AppendOds | sup2pgm.c:436-466 | an object segment up to rendering changes only the fragment record and the code buffer |
| Sup2Pgm.AppendRaw | sup2pgm.c:445-466 | appending changes only the code and its capacity |
| Sup2Pgm.OnOds | sup2pgm.c:436-474 | an object segment changes only the record, the code buffer, the canvas and `halted` |
| Sup2Pgm.OdsAppends | sup2pgm.c:445-466 | a parsed fragment's raw data is appended to the code, which restarts at a FIRST fragment; the capacity is at least `0xffff` and holds the code |
| Sup2Pgm.OdsNotLast | sup2pgm.c:453-473 | a fragment without LAST only appends its data |
| Sup2Pgm.OdsLast | sup2pgm.c:453-473 | a LAST fragment appends its data and then renders |
| Sup2Pgm.RenderNowAgrees | sup2pgm.c:470-472 | rendering depends on the code gathered and the object id, not on how the fragments came |
| Sup2Pgm.FeedMiddle | sup2pgm.c:453-466 | one more middle fragment appends its data and changes nothing else |
| Sup2Pgm.FeedMiddles | sup2pgm.c:453-466 | a FIRST fragment and middle fragments accumulate the concatenation of their data |
| Sup2Pgm.FragmentsConcatenate | sup2pgm.c:453-473 | FIRST, middle and LAST fragments give the same code, canvas and `halted` as one FIRST and LAST fragment with the concatenated data |
| Sup2Pgm.ClearWindowsOfAt | sup2pgm.c:514-521 | clearing the windows with a given id sets exactly the pixels inside any of them to 0 |
| Sup2Pgm.ClearObjectsAt | sup2pgm.c:513-523 | clearing for every composition object sets exactly the pixels inside any window one of the objects uses to 0 |
| Sup2Pgm.ClearObjectsStaysNone | sup2pgm.c:513-523 | once a window does not fit, the whole clear is undefined |
| Sup2Pgm.ClearWindowsOfStaysNone | sup2pgm.c:514-522 | once a window with the id does not fit, clearing for that id is undefined |
| Sup2Pgm.OnEnd | sup2pgm.c:475-535 | an end segment saves at most one subtitle, the current canvas |
| Sup2Pgm.EndResets | sup2pgm.c:530-534 | the four records are reset to their init defaults and their tables are kept |
| Sup2Pgm.EndClosesDisplaySet | sup2pgm.c:482-527 | with a NORMAL composition and no object data, the canvas is saved if it exists, the used windows are cleared and the start time becomes `pts_msec` |
| Sup2Pgm.StepSaved | sup2pgm.c:378-539 | one packet saves at most the current canvas |
| Sup2Pgm.RunHalted | sup2pgm.c:378-539 | after undefined behaviour nothing changes |
| Sup2Pgm.RunSavesEndZero | sup2pgm.c:525-526 | every saved subtitle has end time 0 |
| Sup2Pgm.RunKeepsSaved | sup2pgm.c:378-539 | saved subtitles are only ever appended to |
| Sup2Pgm.Converter.constructor | sup2pgm.c:256-347 | no canvas, no code buffer, times 0 and freshly initialised records |
| Sup2Pgm.Converter.Convert | sup2pgm.c:378-539 | the loop over the whole stream reaches the state `Run` gives |
| Sup2Pgm.Converter.Step | sup2pgm.c:378-381 | one iteration reads a packet and reaches `StepAt`'s state and position |
| Sup2Pgm.Converter.Act | sup2pgm.c:383-538 | the branch on the segment type reaches `Dispatch`'s state |
| Sup2Pgm.Converter.ActOnDisplaySet | sup2pgm.c:383-535 | a composition or end segment reaches `Dispatch`'s state |
| Sup2Pgm.Converter.ActOnDefinition | sup2pgm.c:418-538 | a palette, window, object or unknown segment reaches `Dispatch`'s state |
| Sup2Pgm.Converter.HandleTable | sup2pgm.c:418-435 | a palette or window segment replaces its record as `Dispatch` does |
| Sup2Pgm.Converter.HandlePcs | sup2pgm.c:383-417 | the state after a composition segment is `OnPcs`'s |
| Sup2Pgm.Converter.BeginEpoch | sup2pgm.c:392-416 | the canvas and times after an epoch start are `StartEpoch`'s |
| Sup2Pgm.Converter.ResetCanvas | sup2pgm.c:398-412 | the canvas has the new size, is all zeros, and is a new array only when the size changed |
| Sup2Pgm.Converter.Resize | sup2pgm.c:398-410 | a new canvas exactly when the dimensions change |
| Sup2Pgm.Converter.ClearCanvas | sup2pgm.c:412 | the whole canvas becomes 0 |
| Sup2Pgm.Converter.HandleOds | sup2pgm.c:436-474 | the state after an object segment is `OnOds`'s |
| Sup2Pgm.Converter.AppendObject | sup2pgm.c:445-473 | a parsed fragment is appended and, when it is LAST, rendered |
| Sup2Pgm.Converter.RenderCurrent | sup2pgm.c:468-473 | the canvas after rendering is `RenderNow`'s, and a fault halts the loop |
| Sup2Pgm.Converter.AppendFragment | sup2pgm.c:445-466 | the code buffer holds the kept code followed by the fragment's raw data; its capacity is `0xffff` at first and grows to the exact length needed |
| Sup2Pgm.Converter.ReserveBuffer | sup2pgm.c:445-463 | the buffer is allocated, restarted at a FIRST fragment and grown so that the fragment fits, keeping the code |
| Sup2Pgm.Converter.CopyRaw | sup2pgm.c:465-466 | the fragment's raw data is copied after the code |
| Sup2Pgm.Converter.Grow | sup2pgm.c:457-463 | `realloc` to a larger capacity keeps the old contents |
| Sup2Pgm.Converter.HandleEnd | sup2pgm.c:475-535 | the state after an end segment is `OnEnd`'s |
| Sup2Pgm.Converter.ResetRecords | sup2pgm.c:530-534 | the four records are reset to their init defaults |
| Sup2Pgm.Converter.CloseSet | sup2pgm.c:482-527 | the state after closing a display set is `CloseDisplaySet`'s |
| Sup2Pgm.Converter.ClearWindows | sup2pgm.c:512-523 | the nested loops clear the canvas as `ClearObjects` does, or report a window that does not fit |
| Sup2Pgm.Converter.ClearWindowsFor | sup2pgm.c:514-522 | the inner loop clears the windows with one id as `ClearWindowsOf` does |

## Left out

- Command-line parsing, opening and closing files, and building the output
  file names. These are I/O.
- Writing the PGM bytes and the SRT lines. A saved subtitle is recorded as a
  `Subtitle` value instead.
  - The `pgm_write` failure path is not modelled, so every save counts as
    written.
  - A failing `srt_render_time`, when the hour is above 99, would leave a
    stale timecode in the SRT buffer. This is not modelled.
- The `dump_segment_*` printers. They only print.
- `sup_frame_rate_by_id`. It is floating point.
- Allocation failures (`malloc`, `calloc` and `realloc` returning NULL) and
  the `break` they cause. `malloc(0)` for a 0-by-0 canvas is taken to return
  a non-NULL empty buffer.
- The `FILE*` mechanics:
  - The stream is a byte sequence.
  - The `feof` loop condition is reaching the end of the sequence.
  - A failed read resumes where `fread` would have left the stream: after a
    bad marker, or at the end of the input.
- What the source does after undefined behaviour. `Converter` then stops,
  and `Matches` leaves the canvas unspecified.
- Sup2Pgm.Converter.Convert: requires `!halted` on entry, as do the methods
  it calls. Once `halted`, the model stops processing packets, while the C
  program's behaviour is undefined.
- Sup.ReadPacket: only end of input makes a read fail short. A read error
  other than end of file (`ferror`) has no counterpart in a byte sequence.
- Render.ParseCode: a code whose `00` escape needs operand bytes past the
  end of the gathered code yields no code, and Sup2Pgm.RenderNow then halts
  the loop. The C code reads the stale byte the buffer holds there (left
  over from an earlier, longer object, since a FIRST fragment resets the
  length but keeps the buffer of at least 0xffff bytes), executes that one
  code, and goes on with later packets. The model does not keep the
  buffer's stale tail, so it stops there instead.
- Sup2Pgm.RenderNow: halts on such an over-read inside the buffer's
  capacity, as described for Render.ParseCode, where the C code continues.
- Srt.RenderTime: `SRT_TIMECODE_LEN` is defined in `srt.h`, which is not
  part of this model; its value is taken to be 12, the length of
  `HH:MM:SS,mmm`.
- The gray computation in double precision is modelled as integer division.
  The two agree for byte-sized luma and alpha.
