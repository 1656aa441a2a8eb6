# eeprom-util layout and field engine, in Dafny

eeprom-util reads and writes the 256-byte configuration record that CompuLab
boards keep in an EEPROM. This project models the part of the program that
gives meaning to those bytes:

- **Field codecs** (`field.c`): each field type turns a fixed-size window of
  the record into text and parses text back into the window. The types are
  hex binary, reversed hex binary, a two-byte version number, a colon-separated
  MAC address, a four-byte date, a NUL-padded ASCII string, reserved bytes and
  the raw dump. "Clear" fills a field with 0xff.
- **Layout engine** (`layout.c`): it holds the five schema tables and the
  one-field raw table. It detects the layout from byte 44 and places the
  fields at offsets that are running sums of their sizes. It also runs the
  four batch operations: update and clear by byte range, and update and clear
  by field name. Each batch stops at the first bad entry and keeps the writes
  made before it.

Modules follow the program's structure:

| file | module | models |
|---|---|---|
| common.dfy | Common | the byte type, outcomes, window splicing, the `strtoi`/`strtoi_base` parser, hex and decimal text |
| field_types.dfy | FieldTypes | field types, descriptors, placed fields, `is_named` |
| field_bin.dfy | FieldBin | `__print_bin`, `__update_bin`, `__update_bin_delim`, `print_bin_raw` |
| field_version.dfy | FieldVersion | `print_bin_ver`, `update_bin_ver` |
| field_date.dfy | FieldDate | `print_date`, `validate_date`, `update_date` |
| field_ascii.dfy | FieldAscii | `print_ascii`, `update_ascii` |
| field_ops.dfy | FieldOps | `clear_field`, the `field_ops` table and the dispatch through it |
| layout_tables.dfy | Schemas | the schema tables, `detect_layout`, `build_layout`'s choice of table, the offset walk |
| layout.dfy | Layouts | the `Layout` class (`new_layout`), `find_field`, `print_layout`, the four batch operations |

### How the model is built

Each update routine that writes into the buffer is a `method` over an
`array<byte>`. It is proved against a pure function of the old window (an
`Effect`: a status and the new window bytes), and the properties are lemmas
about that function.

The layout is a class. It has a constant version, a constant sequence of
placed fields and the 256-byte array. Its batch methods are loops with an
early `return 0`. Each is proved equal to a recursive specification
(`BytesRun`, `FieldsRun`). Lemmas about that specification give the counts,
the last-writer-wins contents, the frames and the stop-at-first-failure
behaviour.

Printing is modelled as the text of the field's value. The record changes
only where `print_bin_ver` rewrites an erased version to 00 00.

### Assumptions and choices

- `strtoi_base` and `strtoi` live in common.h, which is not part of this
  model. They are modelled as:
  - an optional sign, then the longest run of digits of the base;
  - "no number" when no digit follows, otherwise the value and the rest of
    the text.
  - STRTOI_STR_END means nothing follows; STRTOI_STR_CON means something
    does. No whitespace is skipped, no `0x` prefix is read and values are
    unbounded.
- `is_named` is not in field.c. It is taken to be "the key is the short name
  or the display name" (`FieldTypes.IsNamed`).
- Texts are `seq<char>` read as C strings. A character is stored as its low
  eight bits.
- Version and date fields are 2 and 4 bytes in every table
  (`Schemas.TablesWellSized`). The model requires those sizes of its callers
  (`FieldTypes.Fits`). The comments at field.c:221 and 246 ask for the
  2-byte version size. The 4-byte date size comes from the four bytes that
  `print_date` and `update_date` access (field.c:339-346, 457-460).
- Where the code departs from its own comments or from what a reader would
  expect, the model follows the code:
  - **ASCII padding.** `update_ascii` zero-pads through `strncpy`, so bytes
    after the new text are always NUL. They are not left holding an older,
    longer value.
  - **Failed field batches.** `update_fields` and `clear_fields` return 0
    when any entry fails, even when earlier entries were applied. They do not
    return the count of those entries.
  - **Buffer size.** `new_layout` does not check the buffer size. The
    constructor requires a 256-byte buffer.
  - **Aliasing.** `new_layout` keeps the caller's buffer rather than copying
    it, whatever its comment says (layout.c:393-395 against layout.c:410).
    The constructor states `data == buf`.
- As-written behaviours the model keeps:
  - `update_bin_ver`'s first check uses `&&`, so any character after the
    major number acts as the separator (`FieldVersion.AnySeparatorExample`).
  - A text with no major number but a leading `.` gets past that check with
    the number unset. The model rejects it (`FieldVersion.NoMajorExample`).
  - `__update_bin` rejects a group only when `strtoi_base` finds no number
    at its start, so "1g" is read as 0x01
    (`FieldBin.TrailingCharacterExample`).
  - `validate_date` takes the day as an `unsigned char`, which truncates day
    256 to 0 and so lets it past (`FieldDate.DayTruncationExample`).
  - `update_date` refuses only a zero day, and `strtoi` reads a sign, so
    "-255/Jan/2014" is accepted and stores day 1, the low byte of -255
    (`FieldDate.NegativeDayExample`).
- **Undefined behaviour** is modelled as a rejection:
  - When no month name matches, `update_date` reads `months[12]`, which is
    out of bounds. The model reports `InvalidMonth`.
  - Reserved and raw fields have NULL `update` and `clear` operations, which
    `update_fields` and `clear_fields` would call. The model refuses them
    with `NotUpdatable`, and the batch ends with 0
    (`Layouts.ReservedKeyRefused`).

## Model

| member | source | states |
|---|---|---|
| Common.Memset | field.c:61 | every byte of the n-byte window becomes the value; every other byte of the buffer keeps its old value |
| Common.Store | layout.c:259 | the buffer becomes the old record with the window at the offset replaced by the given bytes, nothing else changed |
| Common.ParseDigits | field.c:81 | a digit run followed by text that does not continue it parses to the run's value, leaving that text (the `strtoi_base` assumption) |
| Common.ParseHexByte | field.c:81 | the two hex digits printed for a byte parse back to that byte, leaving the text after them |
| Common.Dec | field.c:346 | the `%d` text of n: a non-empty run of decimal digits whose value is n |
| Common.Pad2 | field.c:340 | the `%02d` text of n: at least two decimal digits whose value is n |
| FieldBin.OrientedAt | field.c:39-41 | the k-th byte the print loop visits is byte size-1-k of a reversed field and byte k otherwise |
| FieldBin.PrintBin | field.c:32-45 | the text is the window's bytes in visiting order as two hex digits each, with the delimiter between them and none after the last |
| FieldBin.HexAt | field.c:42 | characters 2j and 2j+1 of the undelimited hex text are the two digits of byte j |
| FieldBin.HexJoinCons | field.c:41-44 | the joined text of a byte followed by more bytes is that byte's pair, the delimiter, and the joined rest |
| FieldBin.GroupText | field.c:65-78 | the characters round j copies: characters 2j and 2j+1 counted from the start, or from the end for a reversed update; a single character when only one is left |
| FieldBin.ParseGroup | field.c:80-85 | the hex parse of group j: its byte, or nothing when it does not parse to a number in 0..255 |
| FieldBin.FillGroups | field.c:61-88 | the window is zero-filled, then holds the bytes of the groups that parse up to the first that does not; ok means no group failed; bytes outside the window are unchanged |
| FieldBin.UpdateBin | field.c:47-91 | the record after `__update_bin` is the old record with the field's window replaced as the update's effect says, and the status is that effect's |
| FieldBin.BinEffectTooLong | field.c:55-58 | a text longer than twice the field size is refused as too long with the record unchanged |
| FieldBin.BinEffectOfPrefix | field.c:60-88 | the new window is the bytes of the parsed groups followed by zeros; the update succeeds exactly when no group failed |
| FieldBin.ParsedPrefixStuck | field.c:81-84 | once a group fails to parse, no later round writes a byte |
| FieldBin.ParsedPrefixAccepted | field.c:86-87 | a group that parses adds its byte at the next position of the window |
| FieldBin.ParsedPrefixRefused | field.c:81-84 | a group that does not parse ends the writes where they are |
| FieldBin.BinUpdateOfHex | field.c:47-91 | updating with the hex text of some bytes (in visiting order) stores those bytes and zeroes the rest of the window |
| FieldBin.GroupBytesOfHex | field.c:71-81 | every group of the hex text of some bytes parses to the corresponding byte |
| FieldBin.BinPrintUpdateRoundTrip | field.c:32-91 | updating a binary or reversed field with its own print restores the window exactly |
| FieldBin.BinUpdatePrintRoundTrip | field.c:32-91 | a full-length hex text is accepted and printed back unchanged, in both orders |
| FieldBin.ReversedExample | field.c:204-206 | "1234" stored reversed in a 2-byte field gives 0x34, 0x12 |
| FieldBin.OddLengthExample | field.c:68-78 | "abc" in a 2-byte field gives 0xab, 0x0c: the lone last character is one nibble |
| FieldBin.OddLengthReversedExample | field.c:71-75 | "abc" stored reversed in a 2-byte field gives 0xbc, 0x0a |
| FieldBin.TrailingCharacterExample | field.c:80-86 | "1g" in a 1-byte field is accepted as 0x01: a group is rejected only when no number starts it |
| FieldBin.DelimBytes | field.c:100-117 | the groups parsed: at most size bytes, and the parse is complete exactly when size groups were read |
| FieldBin.DelimSoFarStep | field.c:100-109 | a group in 0..255 followed by the delimiter adds its byte and moves past the delimiter |
| FieldBin.DelimSoFarStop | field.c:101-114 | a group that is not a number in 0..255 followed by the delimiter (or, for the last group, ending the text) stops the parse with the bytes so far and failure |
| FieldBin.DelimSoFarLast | field.c:111-117 | a last group in 0..255 that ends the text completes the parse with all size bytes |
| FieldBin.ParseDelimited | field.c:100-117 | the first window bytes receive the parsed groups in order, the rest of the buffer is unchanged, and ok is the parse's completeness |
| FieldBin.DelimFinished | field.c:93-120 | the record after `__update_bin_delim` holds the parsed groups at the start of the window (partial writes stay on failure) and the status tells success from syntax error |
| FieldBin.UpdateBinDelim | field.c:93-120 | the record after the MAC update is the old record with the window replaced as the delimited effect says |
| FieldBin.DelimBytesOfPrint | field.c:93-120 | the delimited print of a window parses back to exactly the window's bytes |
| FieldBin.MacPrintUpdateRoundTrip | field.c:306-320 | updating a MAC field with its own print restores the window |
| FieldBin.MacUpdatePrintRoundTrip | field.c:306-320 | a canonical MAC text is accepted and printed back unchanged |
| FieldBin.MacPartialExample | field.c:100-108 | "aa:bb" in a 6-byte MAC field writes 0xaa, fails at the second group, and leaves the other bytes as they were |
| FieldBin.RawChar | field.c:160-165 | the raw dump's ASCII column: '.' for 0 and 0xff, '?' for other non-printable bytes, the character itself for 32..126 |
| FieldBin.RawText | field.c:142-169 | the raw dump's text has four characters per byte, and its ASCII column shows each byte's dump character in order |
| FieldVersion.VerNumber | field.c:238 | the version a field holds, byte 1 high and byte 0 low, is below 2^16 |
| FieldVersion.VerBytesNumber | field.c:290-291 | the bytes written for a version read back as that version |
| FieldVersion.VerNumberBytes | field.c:238 | a field's bytes are the bytes of the version it holds |
| FieldVersion.NormalizeVer | field.c:232-235 | the erased version 0xffff becomes 0; every other version is kept |
| FieldVersion.VerEffect | field.c:256-294 | an update that does not succeed leaves the field unchanged |
| FieldVersion.VerEffectDone | field.c:263-291 | a successful update parsed a non-negative major number followed by one character, then a minor number in 0..99 ending the text, and stores major*100+minor |
| FieldVersion.VerAccepted | field.c:263-291 | such a text is accepted whenever major*100+minor fits 16 bits, and stores its two bytes |
| FieldVersion.UpdateVer | field.c:256-294 | the record after `update_bin_ver` is the old record with the window replaced as the version effect says |
| FieldVersion.NormalizeVerField | field.c:232-235 | the field is rewritten to its normalised bytes and nothing else changes |
| FieldVersion.PrintVer | field.c:228-239 | the field is normalised and the text is the normalised version as major, '.', and two minor digits |
| FieldVersion.ParseVerText | field.c:263-272 | the printed form of a version splits, under the update's parse, into its major number, a '.', and its minor number ending the text |
| FieldVersion.VerPrintUpdateRoundTrip | field.c:228-294 | updating a version field with its print stores the bytes that were shown: the field's own, or 00 00 for an erased field |
| FieldVersion.VerUpdatePrintRoundTrip | field.c:228-294 | a version below 0xffff written in canonical form is accepted and printed back unchanged |
| FieldVersion.MaxVersionExample | field.c:232-235 | 655.35 is stored as ff ff, which prints as 0.00, like an erased field |
| FieldVersion.VersionExample | field.c:284-291 | "123.45" is stored as 0x39, 0x30 |
| FieldVersion.AnySeparatorExample | field.c:263 | "1x05" is accepted as 1.05: the first check lets any separator through |
| FieldVersion.ShortMinorExample | field.c:269-284 | "1.5" stores 105: the minor part is read as a number |
| FieldVersion.MinorTooLongExample | field.c:279-282 | "1.100" is refused with the field unchanged |
| FieldVersion.TooBigExample | field.c:284-288 | "656.00" is refused as too big with the field unchanged |
| FieldVersion.NoMajorExample | field.c:263-272 | ".5" is refused with the field unchanged |
| FieldDate.MonthsDistinct | field.c:322-323 | the twelve month names are pairwise distinct |
| FieldDate.MonthName | field.c:340-344 | the month text is the name of a month byte in 1..12 and "BAD" for any other |
| FieldDate.YearOf | field.c:346 | the year a date field holds, byte 3 high and byte 2 low, is below 2^16 |
| FieldDate.MonthLength | field.c:354-388 | every month has 28 to 31 days |
| FieldDate.ValidDateCalendar | field.c:349-391 | `validate_date` accepts exactly a 0-based month index below 12 and a day the month of that year has (February 29 days in Gregorian leap years) |
| FieldDate.LeapExamples | field.c:372-380 | Feb 29 is valid in 2016 and 2000, invalid in 2014 and 1900; day 31 is valid in January, not April; month index 12 is rejected |
| FieldDate.FirstMonth | field.c:432-434 | the month loop stops at the first month whose name starts the text, or at 13 when none does |
| FieldDate.FirstMonthOfName | field.c:432-434 | a text starting with month m's name is found as month m |
| FieldDate.FindMonth | field.c:432-434 | the loop's month is the first whose name starts the text, 13 when none does |
| FieldDate.DateBytes | field.c:457-460 | four bytes: the day's low eight bits, the month, and the year read back from bytes 2 and 3 |
| FieldDate.DateEffect | field.c:409-463 | an update that does not succeed leaves the field unchanged |
| FieldDate.UpdateDate | field.c:409-463 | the record after `update_date` is the old record with the window replaced as the date effect says |
| FieldDate.ParseDateString | field.c:416-445 | the text day/name/year splits where `update_date` splits it: the day, then '/', the name, '/', and the year ending the text |
| FieldDate.DateAccepted | field.c:416-460 | a text that parses as a non-zero day, a known month and a 16-bit year forming a valid date is stored as its four bytes |
| FieldDate.DateEffectDone | field.c:400-460 | the converse of DateAccepted: a successful update means the text parsed as day/Mon/year with a non-zero day, a month in 1..12, a year below 2^16 and a valid date, and the field then holds that date's bytes |
| FieldDate.DateInvalid | field.c:447-450 | a text that parses as a day its month does not have is refused as invalid with the field unchanged |
| FieldDate.ParseMonthDate | field.c:416-445 | the text of a day, month m's name and a year reads back as that day, month and year |
| FieldDate.DateStringAccepted | field.c:409-463 | the printed form of any valid date is accepted and stored as its bytes |
| FieldDate.DatePrintUpdateRoundTrip | field.c:335-463 | updating a field that holds a valid date with its print restores the field |
| FieldDate.DateBytesOf | field.c:457-460 | a date field is the bytes of its own day, month and year |
| FieldDate.DateUpdatePrintRoundTrip | field.c:335-463 | a valid date's text is accepted and printed back unchanged |
| FieldDate.DateTextOfBytes | field.c:335-347 | the bytes of a date print as its day/name/year text |
| FieldDate.DateExample | field.c:330 | "07/Feb/2014" is stored as 7, 2, 0xde, 0x07 |
| FieldDate.LeapDayExample | field.c:372-380 | "29/Feb/2016" is accepted |
| FieldDate.NoLeapDayExample | field.c:372-383 | "29/Feb/2014" is refused as an invalid date with the field unchanged |
| FieldDate.DayTruncationExample | field.c:349-350 | "256/Jan/2014" is accepted and stores day 0, because the day is truncated to a byte |
| FieldDate.NegativeDayParses | field.c:416-442 | "-255/Jan/2014" reads as day -255, January and year 2014, since strtoi reads a sign |
| FieldDate.NegativeDayExample | field.c:416-457 | "-255/Jan/2014" passes the day check and is stored as day 1, the low byte of -255 |
| FieldDate.UnknownMonthExample | field.c:436-439 | "07/Foo/2014" is refused as an invalid month with the field unchanged |
| FieldAscii.TextBytes | field.c:510 | one byte per character, its low eight bits |
| FieldAscii.AsciiEffect | field.c:501-514 | an update that does not succeed leaves the field unchanged |
| FieldAscii.AsciiStored | field.c:505-511 | the update succeeds exactly when the text is shorter than the field; then the field holds the text's bytes followed by NULs; otherwise it is refused as too long |
| FieldAscii.UpdateAscii | field.c:501-514 | the record after `update_ascii` is the old record with the window replaced as the ASCII effect says |
| FieldAscii.CText | field.c:489-491 | the `%.Ns` print: the bytes up to the first NUL (or all of them), none of them NUL |
| FieldAscii.ErasedWords | field.c:480-487 | when every word equals the first and the first is all 0 or all 0xff, the field is blank |
| FieldAscii.UnerasedWords | field.c:481-486 | a word that differs from the first, or a first word that is not erased, makes the field printed |
| FieldAscii.PrintAscii | field.c:469-492 | the text is nothing for a blank field and the C string of the field otherwise |
| FieldAscii.CTextLength | field.c:491 | the print stops at the first NUL |
| FieldAscii.CTextOfBytes | field.c:491 | a text without NUL is read back from its bytes followed by NULs |
| FieldAscii.BytesOfCText | field.c:510-511 | a field whose bytes after its C string are NUL is the update of that string |
| FieldAscii.AsciiUpdatePrintRoundTrip | field.c:469-514 | a text shorter than the field, without NUL or 0xff, is accepted and printed back, provided the field has two words when the text is not empty |
| FieldAscii.AsciiPrintUpdateRoundTrip | field.c:469-514 | updating a printed, NUL-padded field with its print leaves it as it was |
| FieldAscii.ClearedAsciiPrintsNothing | field.c:480-487 | a field of 0xff bytes prints as nothing |
| FieldAscii.ShortAsciiPrintsNothing | field.c:477-481 | a field shorter than two words prints as nothing, because the comparison loop does not run |
| FieldOps.ClearField | field.c:540-544 | the window becomes all 0xff and the rest of the record is unchanged |
| FieldOps.ClearFieldFrame | field.c:540-544 | after clearing, byte k is 0xff inside the window and its old value outside |
| FieldOps.UpdateEffect | field.c:558-566 | the ops table's update keeps the window size, and a type without an update operation refuses with the window unchanged |
| FieldOps.ClearEffect | field.c:546-566 | the clear succeeds exactly for the updatable types and then fills the window with 0xff; otherwise it refuses with the window unchanged |
| FieldOps.UpdateField | field.c:558-566 | the record after `ops->update` is the old record with the window replaced as the type's effect says |
| FieldOps.Clear | field.c:546-566 | the record after `ops->clear` is the old record with the window replaced as the clear effect says |
| FieldOps.PrintedWindow | field.c:232-235 | printing changes only version fields' windows |
| FieldOps.PrintField | field.c:558-566 | `ops->print` writes only the printed window back and yields the type's text of the old window |
| FieldOps.ClearIsErase | field.c:536-543 | every byte of a cleared updatable field is 0xff, whatever its type |
| FieldOps.ClearedVersionPrint | field.c:232-238 | a cleared version field prints 0.00 and printing writes 00 00 |
| FieldOps.ClearedDatePrint | field.c:339-346 | a cleared date field prints 255/BAD/65535 |
| FieldOps.ClearedAsciiPrint | field.c:480-491 | a cleared ASCII field prints nothing |
| FieldOps.NotUpdatableRefused | field.c:552-556 | exactly the reserved and raw types refuse update and clear, leaving the window unchanged |
| Schemas.RunningSumsAre | layout.c:415-419 | a table of running sums gives at each position the sum of the sizes before it |
| Schemas.TotalLegacy | layout.c:33-39 | the legacy table's sizes sum to 256 |
| Schemas.TotalV1 | layout.c:41-54 | layout 1's sizes sum to 256 |
| Schemas.TotalV2 | layout.c:56-72 | layout 2's sizes sum to 256 |
| Schemas.TotalV3 | layout.c:74-91 | layout 3's sizes sum to 256 |
| Schemas.TotalV4 | layout.c:93-115 | layout 4's sizes sum to 256 |
| Schemas.TablesCoverRecord | layout.c:33-119 | the table of every version, the raw one included, has sizes summing to the record size |
| Schemas.TablesWellSized | layout.c:33-119 | every field of every table has at least one byte, and version and date fields have 2 and 4 |
| Schemas.DetectCases | layout.c:131-146 | check byte 0 or 0xff gives layout 1, 2 to 4 give layouts 2 to 4, 0x20 to 0xfe give legacy, the rest unrecognized; detection never yields autodetect |
| Schemas.ResolveVersion | layout.c:155-156 | the chosen version is never autodetect |
| Schemas.ResolveReadsCheckByteOnly | layout.c:155-156 | an explicit version is kept as given; detection depends on byte 44 alone |
| Schemas.PlaceContiguous | layout.c:415-419 | the first field starts at 0, each field starts where the one before ends, and the last ends at the table's total size |
| Schemas.PlaceDisjoint | layout.c:415-419 | of two placed fields, the earlier ends before the later starts |
| Schemas.PlaceInside | layout.c:415-419 | every placed field ends within the table's total size |
| Schemas.PlaceCovers | layout.c:415-419 | every byte below the total size lies in some placed field |
| Schemas.CheckByteV2 | layout.c:56-72 | in layout 2 the "layout" field is one byte at offset 44, the byte detection reads |
| Schemas.CheckByteV3 | layout.c:74-91 | in layout 3 the "layout" field is one byte at offset 44 |
| Schemas.CheckByteV4 | layout.c:93-115 | in layout 4 the "layout" field is one byte at offset 44 |
| Layouts.BytesRangeLength | layout.c:221-232 | the length is non-zero exactly when 0 <= start <= end < 256, and then it is end-start+1 and the range fits the record |
| Layouts.BytesRun | layout.c:248-271 | the byte batch keeps the record size, and a failed batch reports 0 |
| Layouts.BytesRunOk | layout.c:250-262 | the batch succeeds exactly when every entry has a valid range and a value in 0..255 |
| Layouts.BytesRunCount | layout.c:258-271 | a successful batch reports the sum of its ranges' lengths |
| Layouts.BytesRunLastWriter | layout.c:259 | after a successful batch each byte holds the value of the last entry covering it, or its old value when none does |
| Layouts.BytesRunFrame | layout.c:250-269 | a byte no entry covers is unchanged, even when the batch fails |
| Layouts.BytesRunAppend | layout.c:250-269 | a batch runs as its first part followed, only if that part succeeded, by the rest from where it left off |
| Layouts.InvalidChangeExamples | layout.c:250-268 | a range 10-5, a start of 300 or a value of 256 ends the batch at once with 0 and the record unchanged |
| Layouts.FirstInvalidChange | layout.c:253-268 | at the first invalid entry the batch stops with 0, keeping exactly the record the entries before it left |
| Layouts.ClearChanges | layout.c:296 | clear_bytes is update_bytes with value 0xff for every range |
| Layouts.ClearRunErases | layout.c:287-300 | the clear batch succeeds exactly when every range is valid, and then the bytes in some range are 0xff and all others unchanged |
| Layouts.FirstNamed | layout.c:322-324 | the first field from the given position on that answers to the key, or none when no later field does |
| Layouts.LookupField | layout.c:316-328 | the raw layout finds no field; a found index is a field of the layout |
| Layouts.ChangeEffect | layout.c:352-355 | the effect of one entry keeps the window size |
| Layouts.FieldsRun | layout.c:342-360 | a successful field batch reports the number of entries, a failed one 0 |
| Layouts.ClearNames | layout.c:376-383 | clear_fields is update_fields with an empty value for every key |
| Layouts.FieldsRunFound | layout.c:348-350 | a successful batch found every key; on the raw layout any non-empty batch fails at once with the record unchanged |
| Layouts.FieldsRunFrame | layout.c:344-358 | a byte outside every field the keys find is never written |
| Layouts.FieldsRunAppend | layout.c:344-358 | the batch runs as its first part followed, only if that part succeeded, by the rest |
| Layouts.ClearFieldsStep | layout.c:376-383 | a key whose field cannot be cleared ends the batch in failure; otherwise the field is set to 0xff and the batch goes on |
| Layouts.ClearFieldsOk | layout.c:376-385 | the clear batch succeeds exactly when every key finds a field that has a clear operation |
| Layouts.ClearFieldsErases | layout.c:376-385 | after a successful clear batch the bytes of the named fields are 0xff and all others unchanged |
| Layouts.FieldsCountAllOrNothing | layout.c:349-360 | a field batch reports either 0 or the number of entries, and for a non-empty batch the full number exactly when it succeeded |
| Layouts.PlaceFields | layout.c:415-419 | the offset walk gives each field the running sum of the sizes before it |
| Layouts.PlacedFit | layout.c:158-182 | the fields placed from every table lie inside the record and have the sizes their types need |
| Layouts.PlacedDisjoint | layout.c:415-419 | placed fields are ordered by offset and do not overlap |
| Layouts.UnknownKeyEndsBatch | layout.c:348-350 | on layout 1, a MAC update followed by an unknown key returns 0 with the MAC written and no later entry attempted |
| Layouts.ReservedKeyRefused | layout.c:352-355 | on layout 1, an entry for the reserved field ends the batch with 0 and the record unchanged |
| Layouts.PrintOne | field.c:232-235 | printing one field keeps the record size |
| Layouts.PrintOneSplice | layout.c:196 | printing one field writes its printed window back |
| Layouts.PrintedUpTo | layout.c:195-196 | the record after printing keeps its size |
| Layouts.PrintedAt | layout.c:195-196 | printing field n changes at most the bytes of that field, and only when it is a version field |
| Layouts.PrintedFrame | layout.c:195-196 | print_layout writes only inside version fields |
| Layouts.PrintedBefore | layout.c:195-196 | printing the first n fields leaves the bytes after them alone |
| Layouts.ValueTexts | layout.c:195-196 | one text per printed field |
| Layouts.ValueTextAt | layout.c:195-196 | text j is what field j's type prints for field j's window of the original record |
| Layouts.WindowUnprinted | layout.c:195-196 | when field i is reached, its window still holds the original bytes |
| Layouts.PrintStep | layout.c:195-196 | printing field i of the partly printed record extends the texts and the record by that field |
| Layouts.Layout.constructor | layout.c:399-428 | the layout keeps the caller's buffer, resolves the version (detecting it only on request) and places the chosen table's fields at running-sum offsets |
| Layouts.Layout.FindField | layout.c:310-329 | `find_field`: nothing on the raw layout, otherwise the first field that answers to the key |
| Layouts.Layout.Print | layout.c:189-197 | `print_layout` yields every field's text of the original record and leaves the record with erased version fields zeroed |
| Layouts.Layout.UpdateBytes | layout.c:244-272 | `update_bytes` leaves the record and returns the count the byte-batch specification gives |
| Layouts.Layout.ClearBytes | layout.c:283-301 | `clear_bytes` leaves the record and returns the count the clear-batch specification gives |
| Layouts.Layout.ApplyChange | layout.c:352-355 | one entry of `update_fields`: an empty value clears the field, any other updates it |
| Layouts.Layout.UpdateFields | layout.c:338-361 | `update_fields` leaves the record and returns the count the field-batch specification gives |
| Layouts.Layout.ClearFields | layout.c:370-386 | `clear_fields` leaves the record and returns the count the clear-fields specification gives |

## Left out

- Console output is not modelled. This covers the `%-30s` name column, the
  raw dump's header and offset column, the line breaks and every diagnostic
  message, `offset_to_string` among them. Prints are modelled as the text of
  the field's value.
- Floating point is not modelled: `print_bin_ver`'s `%#.2f` of the version
  divided by 100 is modelled as the integer quotient, a point, and the
  remainder as two digits.
- `init_field`, the `print_format` parameter, `get_data_size` and the
  function pointers `new_layout` installs come from a revision of field.h
  that is not part of this model. Placement uses the descriptor's size.
- `free_layout` and the allocation failure of `new_layout` are left out,
  because allocation is not modelled.
- `init_field` writes into the global schema tables. The model keeps the
  tables as constants.
- The `int` counters of the batch operations are unbounded in the model.
  Their C overflow is left out, because a batch of valid byte ranges would
  need more than eight million entries to reach it.
- FieldVersion.VerEffect: the numbers `strtoi` reads and `num * 100 +
  remainder` are unbounded in the model, so a major number past the C `int`
  range is refused as too big rather than overflowing.
- parser.c (the command line) and eeprom.h (the device access) are not part
  of this model; only EEPROM_SIZE = 256 is taken from it.
- Layouts.Layout.Print: it is not proved that a second print leaves the
  record as the first one did.
