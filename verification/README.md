# jD-IOBoard configurator core, in Dafny

The configurator is a desktop tool for the jD-IOBoard, a small output board
driven by an ATmega328. The tool edits sixteen output patterns and writes them
to the board's EEPROM. It also flashes new firmware from an Intel HEX file.
This project models the three pieces of logic that sit inside its form
handlers, as pure functions over immutable values, and proves what they do.

- **Intel HEX reader** (`readIntelHEXv2`): lines of text in, one flat memory
  image out (modules `HexText`, `IntelHex`). The reader handles three record
  types from the Intel Hexadecimal Object File Format Specification, Rev. A:
  Data (00), End of File (01) and Extended Segment Address (02). The module
  `HexRecords` adds a record datatype and a line formatter. It proves that the
  reader, given a formatted file, does exactly what the records mean.
  `HexSample` works through the usual 16-byte example line. Hex letters may
  be in either case, as the runtime converter allows, and the `IgnoresCase`
  lemmas show that the case changes nothing.
- **EEPROM configuration codec**: the loops of the read and write handlers
  (module `ConfigCodec`). Slot `i` (0-based, 16 slots) keeps a big-endian 16-bit
  mask in bytes `2i` and `2i + 1`. Its flight-mode byte is written to `64 + 2i`
  and again to `65 + 2i`, but only the first copy is read back. The write handler
  uploads the first 126 bytes. The reset handler uploads 1024 zero bytes.
- **Pattern editor**: the checkbox row and its 16-bit mask (`PatternMask`),
  the closed table of 14 flight modes (`FlightModes`), and the demo-animation
  step counter (`DemoStep`). `Editor` ties these to the codec. Reading the
  board into the editors and writing them straight back changes no byte,
  provided every slot's mode byte is one of the 14 modes and its two copies
  agree. An image whose copies differ is changed (`ConfigCodec.EncodeDecode`).
  A mode byte of 14 or more, such as 0xFF in an erased EEPROM, is outside the
  model.

Shared definitions: `Results` (Option/Result in place of exceptions) and `Ints`
(the C# `byte` and `ushort` ranges, and powers of two).

Points where the code departs from the Intel HEX format or from what a
reader might expect; the model follows the code:

- Checksum: the format's checksum covers the length, address, type and data
  bytes. The code instead adds up every hex pair between the `:` and the last
  two characters of the line, `(length - 3) / 2` of them (MainForm.cs:422-426).
  The two agree on well-formed lines, and the model keeps the code's version.
- Flight-mode bytes: the code never checks a byte read from the EEPROM against
  the 14 modes. The model does not report an invalid flight mode. "Ordinal at
  most 13" is a separate predicate, `FlightModes.ValidModeByte`.
- Re-encoding a decoded image reproduces it only when each mode byte's two
  copies already agree (`ConfigCodec.EncodeDecode`). Otherwise it does not.
- Sample line: `:10000000214601360121470136007EFE09D2190140` is the standard
  example record moved to address 0000. At that address its checksum must be
  0x41, not 0x40, so this reader rejects the line
  (`HexSample.SampleChecksumDecides`).
- Errors: the model keeps four errors apart. `Malformed` means a field is past
  the end of the line or holds a non-hex character. `AddressOutOfRange` means a
  byte was aimed past the 1 MiB buffer. The other two are `BadChecksum` and
  `MissingEndRecord`. The caller at MainForm.cs:314 catches all four alike and
  only reports a bad file. Each is still a failure with no image.
- Default patterns: the constructor fills the form's `patterns` array with
  sixteen starting values (MainForm.cs:31-46). The editors start at 0, and
  the write handler encodes what the editors show, never this array
  (`ConfigCodec.DefaultTable` is therefore never encoded by the program).

## Model

| member | source | states |
|---|---|---|
| `HexText.ParseHex` | IOBoard/MainForm.cs:395-397 | A hex field has a value exactly when it is non-empty and all its characters are hex digits; an n-digit field is below 16^n |
| `HexText.Field` | IOBoard/MainForm.cs:396 | A fixed-width field converts iff it is non-empty, lies inside the line and every character is a hex digit; a field of w digits is below 16^w |
| `HexText.ParseHexIgnoresCase` | IOBoard/MainForm.cs:395-397 | A numeral has the same value, or is rejected alike, when its hex letters are spelled in upper case |
| `HexText.FieldIgnoresCase` | IOBoard/MainForm.cs:396 | A field reads the same whatever the case of its hex letters |
| `HexText.PairIgnoresCase` | IOBoard/MainForm.cs:405 | A two-character byte reads the same whatever the case of its hex letters |
| `HexText.PairsIgnoresCase` | IOBoard/MainForm.cs:402-405 | A run of byte pairs reads the same whatever the case of its hex letters |
| `HexText.PairsDefined` | IOBoard/MainForm.cs:402-405 | The payload of L bytes parses exactly when every pair at 9, 11, … is present and hex |
| `HexText.Pairs` | IOBoard/MainForm.cs:402-405 | n byte pairs from a position, when all are there and hex, give n bytes and end inside the line |
| `HexText.Pair` | IOBoard/MainForm.cs:405 | Two characters convert to a byte iff both are there and both are hex digits |
| `HexText.PairIsField` | IOBoard/MainForm.cs:405 | A pair has the same value as the two-character field at that place |
| `HexText.PairsValues` | IOBoard/MainForm.cs:403-405 | Payload byte k is the pair at position 9 + 2k |
| `IntelHex.ReadHeader` | IOBoard/MainForm.cs:395-397 | Reading the length, address and type fields succeeds only on a line of at least 9 characters |
| `IntelHex.IsRecordLine` | IOBoard/MainForm.cs:393 | The prefix test that decides whether a line is read at all: its first character is `:` (taken ordinally; see Left out) |
| `IntelHex.ReadHeaderIgnoresCase` | IOBoard/MainForm.cs:395-397 | A header with lower-case hex letters reads as its upper-case spelling |
| `IntelHex.Payload` | IOBoard/MainForm.cs:402 | The payload of a `length`-byte record, when it converts, is `length` bytes that lie within the line from column 9 |
| `IntelHex.WriteData` | IOBoard/MainForm.cs:400-411 | The data loop succeeds iff every payload pair is hex and the last byte lands inside 1 MiB; then it overlays the payload at base + address and raises `total` to one past the last byte; a well-formed payload that overruns fails with AddressOutOfRange |
| `IntelHex.WriteDataIgnoresCase` | IOBoard/MainForm.cs:400-411 | The data loop stores the same bytes, or fails with the same error, whatever the case of the payload's hex letters |
| `IntelHex.OverlayFacts` | IOBoard/MainForm.cs:405-407 | Writing a payload sets exactly the addresses at + k to byte k and keeps every other address |
| `IntelHex.StepLine` | IOBoard/MainForm.cs:391-434 | A line not starting with `:` leaves the reader's state unchanged; a line that is read keeps every written address, never lowers `total`, never clears the end flag, and fails only with one of the per-line errors (never MissingEndRecord) |
| `IntelHex.ApplyRecord` | IOBoard/MainForm.cs:400-419 | Only a data record can write or fail with AddressOutOfRange; only a segment record moves the base, always to a multiple of 16 below 2^20; the end flag is raised exactly by an End of File record; no record erases an address or lowers `total`; a record keeps the reader's invariant (see `IntelHex.RunPreservesValid`) |
| `IntelHex.ApplyData` | IOBoard/MainForm.cs:400-411 | A data record fails only as Malformed or AddressOutOfRange; on success it keeps the base, the end flag and every written address, never lowers `total`, and keeps the reader's invariant |
| `IntelHex.ApplySegment` | IOBoard/MainForm.cs:412-415 | A segment record fails only as Malformed; on success it changes only the base, to a multiple of 16 below 2^20, and keeps the reader's invariant |
| `IntelHex.CheckLine` | IOBoard/MainForm.cs:420-433 | A line that passes its checksum keeps its record's effect and nothing else |
| `IntelHex.CheckedBytes` | IOBoard/MainForm.cs:423-425 | The checksum loop reads `(line.Length - 3) / 2` pairs from column 1, all of them before the last two characters |
| `IntelHex.CheckLineIgnoresCase` | IOBoard/MainForm.cs:420-433 | The checksum test passes or fails alike whatever the case of the line's hex letters |
| `IntelHex.WrappingSum` | IOBoard/MainForm.cs:422-426 | The `byte` running sum, wrapping at each addition, ends as the true sum of the bytes modulo 256 |
| `IntelHex.ChecksumAcceptsIff` | IOBoard/MainForm.cs:427-429 | The code's test `(byte)(0x100 - sum) == checksum` holds iff sum + checksum ≡ 0 (mod 256) |
| `IntelHex.ChecksumRule` | IOBoard/MainForm.cs:420-433 | A parsed line is accepted iff its bytes and checksum add to 0 mod 256; accepted lines have their record's effect, rejected ones fail with BadChecksum |
| `IntelHex.UnknownTypeIgnored` | IOBoard/MainForm.cs:400-419 | A record of a type other than 0, 1, 2 changes nothing, yet is still checksum-checked |
| `IntelHex.DataRecordEffect` | IOBoard/MainForm.cs:400-411 | A type-00 record of length L writes payload byte k at segmentBase + address + k for k < L, leaves every other address, the base and the end flag alone |
| `IntelHex.DataBeyondFlashRejected` | IOBoard/MainForm.cs:403-406 | A data byte aimed at or past 1024*1024 fails the decode |
| `IntelHex.SegmentRecordEffect` | IOBoard/MainForm.cs:412-415 | A type-02 record sets the base to its 4-digit payload shifted left by 4 (below 2^20) and changes nothing else |
| `IntelHex.EndRecordEffect` | IOBoard/MainForm.cs:416-419 | A type-01 record only raises the end flag |
| `IntelHex.EndFlagRaisedOnlyByEndRecord` | IOBoard/MainForm.cs:416-419 | Only an End of File record raises the end flag |
| `IntelHex.Run` | IOBoard/MainForm.cs:387-436 | Over any run of lines written addresses stay written, `total` never drops, a raised end flag stays raised, and the loop never fails with MissingEndRecord |
| `IntelHex.RunPreservesValid` | IOBoard/MainForm.cs:387-436 | Between lines the base is a multiple of 16 below 2^20, every written address is below `total` ≤ 1 MiB, and `total - 1` was written |
| `IntelHex.RunAppend` | IOBoard/MainForm.cs:387-391 | Reading A then B is reading B from the state A left, and a failure in A stops the reader |
| `IntelHex.Decode` | IOBoard/MainForm.cs:379-447 | Succeeds iff every line is read without error and an End of File record was seen, failing with MissingEndRecord otherwise; the image is one past the highest written address long (0 if nothing was written), holds the last byte written at each written address and 0 elsewhere |
| `IntelHex.Image` | IOBoard/MainForm.cs:444 | The result is the 1 MiB buffer cut to `total` bytes: the last byte written at each written address, 0 elsewhere |
| `IntelHex.DecodeNeedsEndRecord` | IOBoard/MainForm.cs:438-442 | A file decodes only if one of its lines is an End of File record |
| `IntelHex.LinesAfterEndAreRead` | IOBoard/MainForm.cs:387-444 | Lines after the End of File record are still read, written and checked, and can still fail the decode |
| `HexRecords.Checksum` | IOBoard/MainForm.cs:420-427 | A record's checksum byte makes its bytes add up to 0 mod 256 |
| `HexRecords.ChecksumIsUnique` | IOBoard/MainForm.cs:427-429 | No other checksum byte is accepted for the same record |
| `HexRecords.Apply` | IOBoard/MainForm.cs:400-419 | The meaning of a record without text; it can only fail for a data record that overruns the buffer |
| `HexRecords.FormattedHeader` | IOBoard/MainForm.cs:395-397 | The header of a formatted line reads back as the record's length, address and type |
| `HexRecords.FormattedPayload` | IOBoard/MainForm.cs:402-414 | The payload of a formatted line, and a segment record's 4-digit field, read back as written |
| `HexRecords.FormattedChecksum` | IOBoard/MainForm.cs:420-426 | The checksum pair and the bytes it covers read back as written |
| `HexRecords.ApplyRecordMeans` | IOBoard/MainForm.cs:400-419 | The reader's record branch on a well-formed record's fields is the record's meaning |
| `HexRecords.CheckLineMeans` | IOBoard/MainForm.cs:420-433 | The checksum test on a formatted line passes exactly for the record's own checksum |
| `HexRecords.FormattedLineStep` | IOBoard/MainForm.cs:393-433 | A formatted line does what its record means with the right checksum, and fails with BadChecksum with any other |
| `HexRecords.RunFormattedFile` | IOBoard/MainForm.cs:387-436 | Reading a formatted file line by line is applying its records in order |
| `HexRecords.DecodeFormattedFile` | IOBoard/MainForm.cs:379-447 | The reader decodes a formatted file to what its records mean |
| `HexSample.SampleChecksum` | IOBoard/MainForm.cs:420-427 | The 16-byte sample record at address 0000 has checksum 0x41 |
| `HexSample.SampleChecksumDecides` | IOBoard/MainForm.cs:420-433 | The sample line is accepted with checksum 41 and rejected with BadChecksum with checksum 40 |
| `ConfigCodec.BigEndian` | IOBoard/MainForm.cs:102 | The mask read from two bytes is a 16-bit value whose high and low byte are those two bytes |
| `ConfigCodec.BigEndianSplit` | IOBoard/MainForm.cs:147-148 | Splitting a mask into `>> 8` and `& 0xff` and reading it back gives the mask |
| `ConfigCodec.ModeByte` | IOBoard/MainForm.cs:150-151 | The `(byte)` cast of a mode below 256 is the mode itself |
| `ConfigCodec.WriteSlot` | IOBoard/MainForm.cs:147-151 | Writing slot i stores its mask high byte first at 2i and its mode twice at 64 + 2i, and changes no other byte |
| `ConfigCodec.WriteSlotsCommute` | IOBoard/MainForm.cs:137-162 | The order in which the form lists the editors does not matter |
| `ConfigCodec.EncodeUpTo` | IOBoard/MainForm.cs:137-162 | After the first n slots every one of them is stored, and every byte outside their positions is unchanged |
| `ConfigCodec.Encode` | IOBoard/MainForm.cs:137-162 | Every slot is stored at its place and no byte outside [0,32) and [64,96) changes |
| `ConfigCodec.Decode` | IOBoard/MainForm.cs:101-108 | Decoding yields 16 slots whose modes are bytes |
| `ConfigCodec.DecodeStoredMode` | IOBoard/MainForm.cs:108 | A slot's mode is read from the first of its two mode bytes |
| `ConfigCodec.DecodeStoredSlot` | IOBoard/MainForm.cs:101-108 | A slot stored in an image reads back as written, its mode cut to a byte |
| `ConfigCodec.DecodeEncode` | IOBoard/MainForm.cs:101-159 | Decode(Encode(T, e)) gives back slot i's mask and the low byte of its mode |
| `ConfigCodec.RoundTrip` | IOBoard/MainForm.cs:101-159 | Decode(Encode(T, e)) == T whenever every mode is below 256 |
| `ConfigCodec.ModeAbove255IsTruncated` | IOBoard/MainForm.cs:150-151 | Any slot whose mode is 256 or more comes back with only the mode's low byte, so such a table never survives a write and a read |
| `ConfigCodec.EncodeDecode` | IOBoard/MainForm.cs:101-159 | Re-encoding a decoded image changes nothing iff every slot's two mode bytes agree |
| `ConfigCodec.ReencodeUnchanged` | IOBoard/MainForm.cs:101-159 | An image whose mode copies agree is its own re-encoding |
| `ConfigCodec.DecodeReadsOnly` | IOBoard/MainForm.cs:101-108 | Decode depends only on bytes [0,32) and the first copy of each mode |
| `ConfigCodec.Upload` | IOBoard/MainForm.cs:186 | Under the assumed effect of `upload(eeprom, 0, 126, 0)`, the board receives the first 126 bytes and keeps the rest |
| `ConfigCodec.EncodeStaysInUpload` | IOBoard/MainForm.cs:147-186 | Encoding writes only below 96, inside the 126 uploaded bytes |
| `ConfigCodec.WriteThenRead` | IOBoard/MainForm.cs:101-186 | Uploading an encoded table to any board and reading it back gives the table, when every mode fits in a byte and under the assumed effect of the two transfers |
| `ConfigCodec.ResetReadsEmpty` | IOBoard/MainForm.cs:475-481 | After a reset every slot reads back as mask 0, mode 0 |
| `ConfigCodec.DefaultTableRoundTrip` | IOBoard/MainForm.cs:31-46 | The starting values of the form's `patterns` array, with mode 0, would round-trip through the codec, and slot 1 would be stored as F0 00; the program never encodes this array |
| `PatternMask.Pack` | IOBoard/Pattern.cs:39-55 | A row of n flags read as a binary numeral is below 2^n |
| `PatternMask.Unpack` | IOBoard/Pattern.cs:57-73 | Writing a value as n binary digits gives n flags |
| `PatternMask.UnpackBit` | IOBoard/Pattern.cs:68-70 | Digit i of the n-digit writing is bit n - 1 - i of the value |
| `PatternMask.PackUnpack` | IOBoard/Pattern.cs:39-73 | Reading back the digits of a value below 2^n gives the value |
| `PatternMask.UnpackPack` | IOBoard/Pattern.cs:39-73 | Writing out a row's value gives the row back |
| `PatternMask.CheckedWeights` | IOBoard/Pattern.cs:43-52 | The running total over the first k boxes leaves room for 2^(16 - k) below 2^16, so the `ushort` addition never wraps |
| `PatternMask.CheckedWeightsArePacked` | IOBoard/Pattern.cs:43-52 | Adding `1 << (16 - a)` over the checked boxes among the first k is those k boxes read in binary and shifted to the top bits, below 2^16 |
| `PatternMask.CheckedWeightsTotal` | IOBoard/Pattern.cs:41-54 | Over all sixteen boxes the sum of weights is the row read in binary |
| `PatternMask.GetStatus` | IOBoard/Pattern.cs:39-55 | The `getStatus` loop, with `ushort` wrap-around written out, never wraps and returns the row read as a binary numeral |
| `PatternMask.SetStatus` | IOBoard/Pattern.cs:57-73 | `setStatus(v)` ticks the sixteen boxes with the binary digits of v, most significant first, as the reference writing `Unpack` gives them |
| `PatternMask.PackFits` | IOBoard/Pattern.cs:41-54 | The value of sixteen boxes is below 65536 |
| `PatternMask.CheckboxIsBit` | IOBoard/Pattern.cs:41-72 | Checkbox a is checked iff bit 16 - a of the row's value is set |
| `PatternMask.PackFirst` | IOBoard/Pattern.cs:43-51 | The first box is worth 2^(n-1) on top of the others |
| `PatternMask.EndBoxesWeights` | IOBoard/Pattern.cs:42-51 | Checkbox 1 is the most significant bit (0x8000), checkbox 16 the least |
| `PatternMask.GetAfterSet` | IOBoard/Pattern.cs:36-73 | getStatus(setStatus(v)) == v for every 16-bit v |
| `PatternMask.SetAfterGet` | IOBoard/Pattern.cs:36-73 | setStatus(getStatus(row)) reproduces the same sixteen flags |
| `FlightModes.Ordinal` | IOBoard/Pattern.cs:13-29 | Every mode has an ordinal below 14, and it is its position in the table |
| `FlightModes.Name` | IOBoard/Pattern.cs:13-29 | Each mode is shown under its declared name, four capital letters |
| `FlightModes.FromOrdinal` | IOBoard/Pattern.cs:13-29 | A number names a mode iff it is below 14, and that mode's ordinal is the number |
| `FlightModes.Parse` | IOBoard/Pattern.cs:37 | A name is found only as the name of the mode found |
| `FlightModes.TableDistinct` | IOBoard/Pattern.cs:13-29 | The table has exactly 14 modes, pairwise distinct, with pairwise distinct names |
| `FlightModes.ParseName` | IOBoard/Pattern.cs:37 | Looking up a mode's own name finds that mode |
| `FlightModes.OrdinalRoundTrip` | IOBoard/Pattern.cs:37 | Every ordinal 0..13 goes to a mode, its name, the mode again and back to itself |
| `FlightModes.ModeRoundTrip` | IOBoard/Pattern.cs:13-29 | Every mode goes to its ordinal and back |
| `DemoStep.Tick` | IOBoard/Pattern.cs:105-108 | A tick takes a step in 1..16 to a step in 1..16: k to k + 1 below 16, and 16 to 1 |
| `DemoStep.TicksFromStart` | IOBoard/Pattern.cs:31-108 | Starting from 1, the step after n ticks is n mod 16 + 1 |
| `DemoStep.TicksCount` | IOBoard/Pattern.cs:105-108 | From any step s in 1..16, n ticks give (s - 1 + n) mod 16 + 1 |
| `DemoStep.TicksStayValid` | IOBoard/Pattern.cs:105-108 | The step never leaves 1..16, and sixteen ticks bring it back |
| `Editor.Show` | IOBoard/MainForm.cs:107-108 | Showing a slot ticks the checkboxes as setStatus does, and succeeds iff its mode is one of the 14 |
| `Editor.ReadBack` | IOBoard/Pattern.cs:36-37 | Reading an editor gives the boxes' binary value and a valid ordinal, iff its text names a mode |
| `Editor.ShowThenReadBack` | IOBoard/Pattern.cs:36-37 | A slot with a valid mode is shown and read back unchanged |
| `Editor.ReadBackThenShow` | IOBoard/Pattern.cs:36-37 | An editor whose text names a mode is read and shown again unchanged |
| `Editor.ShowAll` | IOBoard/MainForm.cs:101-108 | The read handler's loop shows a table iff every mode is one of the 14, editor i showing slot i |
| `Editor.ReadAll` | IOBoard/MainForm.cs:137-158 | The write handler's loop reads the editors iff every mode text names a mode, slot i read from editor i |
| `Editor.TableRoundTrip` | IOBoard/MainForm.cs:101-159 | A table with valid modes survives showing on the 16 editors and reading back |
| `Editor.ReadThenWriteUnchanged` | IOBoard/MainForm.cs:97-162 | Reading the board into the editors and writing them back leaves the image unchanged, when all modes are valid and duplicated |

## Left out

- Serial traffic with the bootloader is not modelled: opening the port, the
  handshake, the byte transfers, flash upload, progress events and closing.
  That code drives a class (`ArduinoSTK`) that is not part of this model. The
  effect of the two EEPROM transfers is assumed instead, as the next line
  says. The HEX file is parsed before any port is opened, which follows from
  `IntelHex.Decode` being a pure function.
- ConfigCodec.Upload: `sp.upload(eeprom, 0, 126, 0)` (MainForm.cs:186) is
  assumed to write bytes 0 to 125 of the image at board address 0 and leave
  the rest of the board's EEPROM as it was. `sp.download(1024)`
  (MainForm.cs:81) is assumed to return all 1024 bytes of the board's EEPROM
  (`ConfigCodec.WriteThenRead`). Neither argument order nor effect can be
  checked here, since the transfer class is not part of this model.
- The progress bar, message boxes, console output and the EEPROM dump
  (`printeeprom`) are left out: they are display only, and the progress value
  uses floating point.
- The `.iob` save and load handlers (file dialogs and reflection over
  controls) are left out.
- Bitmap and timer drawing of the demo preview is left out. Only its step
  counter is modelled.
- Editors are addressed by slot index, not found by name. The form as laid out
  has editors for slots 1 to 8 only, so a real read or write skips slots 9 to
  16. The model treats all sixteen alike.
- Editor.Show: what the flight-mode drop-down shows for a number that is
  not one of the 14 ordinals is not modelled (the result is None). It depends
  on the drop-down's style, which is not part of this model.
- Editor.ReadBack takes the drop-down's text through `FlightModes.Parse`, so
  it has the same limits as the next line.
- FlightModes.Parse: takes a name to match exactly. It does not model the
  runtime enum parser's extras: surrounding blanks, numeric strings and comma
  lists.
- HexText.ParseHex accepts exactly the hex digits `0-9a-fA-F`. It does not
  model the runtime converter's leniency for a leading `0x` or sign.
- IntelHex.DataRecordEffect: within a segment, the address does not wrap at
  64 KiB as the Intel format prescribes. The code adds the full offset and
  fails past 1 MiB, and the model follows the code.
- IntelHex.StepLine: a line counts as a record line when its first character
  is `:`. The code's `StartsWith(":")` is a culture-sensitive comparison that
  skips ignorable characters such as a soft hyphen or U+FEFF in front of the
  `:`. Such a line is a record line to the code, and there its header fails
  to convert, so the decode fails; the model skips it instead. Culture rules
  are not part of this model. A line is also taken as a sequence of Unicode
  scalar values, while the code's `Length` and `Substring` count UTF-16 code
  units, as the next line explains.
- IntelHex.CheckLine: the line is a sequence of Unicode scalar values, but the
  code counts UTF-16 code units. A character above U+FFFF is one position
  here and two in the code, which moves `(Length - 3) / 2` and the checksum
  position. So a line holding such a character can be accepted here and
  rejected by the code: for example, `:00000001` followed by U+1F600 and `FF`
  is an End of File record to the model but throws in the code. The same
  holds for `IntelHex.StepLine` and `IntelHex.Decode` on a file that contains
  such a line. UTF-16 encoding is not part of this model.
- ConfigCodec.DefaultTable: the values of the form's `patterns` array are
  modelled, but nothing in the program copies them to an editor or encodes
  them; the editors start at 0.
- Every editor is taken to have all sixteen checkboxes. The search for a
  missing checkbox never fails in the form as laid out.
