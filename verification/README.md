# Equipment table loader of the ARINC 429 data utilities

This project models the part of `LoadedCSV.cpp` that actually parses data: the
quoted-field reader `readField` and the loop of `loadEquipmentList` that turns
the lines of the equipment table (`EquipmentIDs.csv`) into an ordered list of
`Equipment` records, each an identifier and a type name.

The file is taken as the sequence of lines `fgets` returns, each with its
trailing newline. Each Dafny `char` stands for one byte of the C buffer. The
characters the code tests for are quote, comma, NUL, the hexadecimal digits,
signs, `x` and "C"-locale white space, and all of them are ASCII. Every line
sits in a NUL-terminated C buffer, so the model reads NUL at index `|line|`,
the terminator (`CText.CharAt`). Beyond that index the C buffer still holds
bytes of earlier lines, but the model keeps reading NUL there (see
"Left out"). The C library sees a field only up to its first NUL
(`CText.CStr`).

- `CsvField` is `readField`. A field that starts with a quote is the text up to
  the next quote, and the cursor lands just past that closing quote. Anything
  else gives an empty field and cursor 1. The C scan has no bound. When no
  closing quote follows on the line, the model returns `UnterminatedQuote`
  instead of scanning on into the bytes left in the buffer.
- `HexParse` is `(OwInt16)strtol(field, NULL, 16)`. It skips white space, takes
  an optional sign and an optional `0x`/`0X` prefix, then reads the longest run
  of hexadecimal digits. The value saturates at the limits of a 32-bit `long`;
  `long` is 32 bits wide on the Windows toolchain the code targets (it calls
  `fopen_s`). Finally the low 16 bits are kept as a two's complement value.
- `EquipmentTable` holds the rest.
  - Each body line gives an error, no record, or one record.
  - The body is a left fold that appends records in file order, as `push_back`
    does.
  - The first line is consumed as the header.
  - The header comparison does not affect the result, because the
    `std::invalid_argument` for a mismatch is constructed but never thrown.
  - Because `fgets` keeps the newline, a correct header followed by more lines
    never compares equal anyway (`EquipmentTable.NewlineHeaderMismatch`).

The code has no abort on an unexpected header, and it does not read unquoted
fields: an unquoted ID is skipped as empty and the cursor lands on index 1.

## Model

| member | source | states |
|---|---|---|
| `CText.CharAt` | LoadedCSV.cpp:228 | `line[charPointer]` reads the line's characters and then its NUL terminator; a non-NUL read lies inside the line. |
| `CText.CStr` | LoadedCSV.cpp:231-233 | The C-string view of a buffer is a prefix of it, holds no NUL, and stops only at a NUL or at the end. |
| `CText.CStrOfNulFree` | LoadedCSV.cpp:223 | A buffer without NULs is seen whole by the C library. |
| `CsvField.FindQuote` | LoadedCSV.cpp:257-262 | The scan stops at the first quote at or after its start, or at the end when there is none; no quote lies before where it stops. |
| `CsvField.ReadField` | LoadedCSV.cpp:250-266 | Quoted input succeeds exactly when a closing quote follows the opening one. The field is then the text strictly between the two quotes and holds no quote. The cursor is the index just past the closing quote, i.e. the field's length plus 2. Unquoted input gives an empty field and cursor 1. |
| `CsvField.QuotedRoundTrip` | LoadedCSV.cpp:254-265 | A quote-free text written between quotes and followed by anything reads back as itself, with the cursor on what follows. |
| `CsvField.QuotedDecomposition` | LoadedCSV.cpp:254-265 | A successful quoted read splits the input into the quoted field followed by the text at the cursor. |
| `CsvField.ScanField` | LoadedCSV.cpp:250-266 | The index-walking copy loop computes the same field and cursor as `ReadField`, and copies no quote. |
| `HexParse.HexRunLength` | LoadedCSV.cpp:225 | The digit run `strtol` reads is all hexadecimal digits and stops at the first character that is not one. |
| `HexParse.HexValue` | LoadedCSV.cpp:225 | The value of n hexadecimal digits is below 16^n. |
| `HexParse.HexRoundTrip` | LoadedCSV.cpp:225 | Reading back a number written with enough hexadecimal digits gives the number. |
| `HexParse.SkipSpace` | LoadedCSV.cpp:225 | `strtol` drops exactly the leading white space: what remains is a suffix that does not start with white space. |
| `HexParse.StrToLong` | LoadedCSV.cpp:225 | `strtol` in base 16 always returns a value within the 32-bit `long` range. |
| `HexParse.ToInt16` | LoadedCSV.cpp:225 | The `OwInt16` cast is congruent to its input modulo 2^16 and leaves every 16-bit value unchanged. |
| `HexParse.HexFieldToInt16` | LoadedCSV.cpp:225 | The identifier conversion gives every field of at most three hexadecimal digits its plain value. |
| `HexParse.PlainFieldConverts` | LoadedCSV.cpp:225 | A field starting with a hexadecimal digit and with no `0x`/`0X` prefix converts to the value of its leading digit run, saturated at LONG_MAX. |
| `HexParse.DigitsConvert` | LoadedCSV.cpp:225 | A field of only hexadecimal digits converts to its value, saturated at LONG_MAX. |
| `HexParse.TrailingTextIgnored` | LoadedCSV.cpp:225 | Text after the digit run does not change the value, provided it does not start with a hexadecimal digit, an `x` or an `X`. |
| `HexParse.LeadingSpaceSkipped` | LoadedCSV.cpp:225 | Leading white space never changes the value, whatever follows it. |
| `HexParse.SpaceAndPrefixSkipped` | LoadedCSV.cpp:225 | White space followed by a `0x`/`0X` prefix in front of a digit string does not change its value. |
| `HexParse.NegatedDigits` | LoadedCSV.cpp:225 | A `-` before a digit string negates its value, saturated at LONG_MIN. |
| `HexParse.TwelveBitIdRoundTrip` | LoadedCSV.cpp:225 | Every 12-bit identifier written as three hexadecimal digits converts back to itself. |
| `HexParse.PlainIdExample` | LoadedCSV.cpp:225 | `1A2` converts to 0x1A2. |
| `HexParse.WrapExample` | LoadedCSV.cpp:225 | `8000` converts to -0x8000 after the 16-bit cast. |
| `HexParse.AllOnesExample` | LoadedCSV.cpp:225 | `FFFF` converts to -1 after the 16-bit cast. |
| `HexParse.SaturatedField` | LoadedCSV.cpp:225 | Every digit string whose value exceeds LONG_MAX saturates, and the low 16 bits of LONG_MAX give -1. |
| `HexParse.SaturateExample` | LoadedCSV.cpp:225 | Nine `F`s saturate at LONG_MAX, whose low 16 bits give -1. |
| `HexParse.SignExample` | LoadedCSV.cpp:225 | `-1` converts to -1. |
| `HexParse.NoDigitsGiveZero` | LoadedCSV.cpp:225 | A field that is empty, or whose first character is neither white space, a sign nor a hexadecimal digit, converts to 0. |
| `HexParse.NoDigitExample` | LoadedCSV.cpp:225 | `G1` converts to 0. |
| `EquipmentTable.RowId` | LoadedCSV.cpp:219-226 | The identifier is -1 when the ID field is empty as a C string. For a NUL-free, non-empty field it is the field's `(OwInt16)strtol` value. |
| `EquipmentTable.ParseRow` | LoadedCSV.cpp:217-236 | A kept record always has a non-empty type name that contains no NUL and no quote. |
| `EquipmentTable.QuotedRow` | LoadedCSV.cpp:218-235 | A line of two quoted fields separated by a comma gives the record for them, whatever follows. An empty ID field does not stop the record. |
| `EquipmentTable.NulFreeQuotedRow` | LoadedCSV.cpp:219-226 | On NUL-free fields, the identifier is -1 for an empty ID field and otherwise the field's base-16 value cast to 16 bits. A record is kept exactly when the type field is non-empty. |
| `EquipmentTable.RowShapeKept` | LoadedCSV.cpp:221-235 | Every line made of an ID field (quoted, or one unquoted character read as empty), a comma and a quoted, non-empty type field gives the record of those two fields. |
| `EquipmentTable.KeptRowShape` | LoadedCSV.cpp:221-235 | Conversely, every kept record comes from a line of that shape, and it is the record of that line's two fields. |
| `EquipmentTable.OpenQuoteRow` | LoadedCSV.cpp:221-230 | The line is an error when its quoted ID field is never closed. It is also an error when a type field opened after the comma is never closed, whether the ID field was quoted or a single unquoted character. |
| `EquipmentTable.RowErrorIff` | LoadedCSV.cpp:221-230 | A line fails exactly when one of its two field scans finds no closing quote. Either the line opens a quote and never closes it, or the ID field reads, a comma follows it, and the type field after the comma opens a quote it never closes. |
| `EquipmentTable.RowRoundTrip` | LoadedCSV.cpp:217-235 | Every record with a 12-bit identifier and a non-empty type name free of quotes and NULs is read back unchanged from its formatted row. |
| `EquipmentTable.UnquotedIdIgnored` | LoadedCSV.cpp:221-235 | An unquoted first character counts as an empty ID field: followed by a comma and a quoted type field that is non-empty as a C string, the row is kept with identifier -1. |
| `EquipmentTable.LoadBody` | LoadedCSV.cpp:215-237 | The body yields at most one record per line, and every record has a non-empty type name. |
| `EquipmentTable.LoadBodyOkIff` | LoadedCSV.cpp:215-237 | Loading the body fails exactly when some line fails. |
| `EquipmentTable.LoadBodySelects` | LoadedCSV.cpp:215-237 | The loaded list is exactly the records of the lines that give one, one record per line, in file order; every other line gives none. |
| `EquipmentTable.LoadBodyMembership` | LoadedCSV.cpp:215-237 | A record is in the list exactly when some body line gives it. |
| `EquipmentTable.LoadBodyAppend` | LoadedCSV.cpp:215-237 | Splitting the body anywhere: the whole succeeds exactly when both parts do, and its list is the first part's list followed by the second's. |
| `EquipmentTable.HeaderMatches` | LoadedCSV.cpp:209 | `strcmp` finds the first line equal to the expected header exactly when the line starts with it and ends, or holds its terminator, right after it. |
| `EquipmentTable.NewlineHeaderMismatch` | LoadedCSV.cpp:206-209 | The expected header followed by the newline `fgets` keeps does not compare equal to the expected text. |
| `EquipmentTable.HeaderIgnored` | LoadedCSV.cpp:205-215 | Whatever the first line holds, matching or not, the list is the body's list: the header never becomes a record and a mismatch does not stop parsing. |
| `EquipmentTable.Load` | LoadedCSV.cpp:189-240 | An empty file or a header alone gives the empty list, and a successful load has fewer records than the file has lines. |
| `EquipmentTable.LoadEquipmentList` | LoadedCSV.cpp:189-240 | The loop, starting from an empty list and appending with `push_back`, computes the fold over the body lines. A successful load has fewer records than the file has lines. |
| `EquipmentTable.SampleRowFull` | LoadedCSV.cpp:217-235 | `"1A2","INS"` gives the record 0x1A2 / INS. |
| `EquipmentTable.SampleRowNoId` | LoadedCSV.cpp:219-235 | `"","ADC"` gives the record -1 / ADC. |
| `EquipmentTable.SampleRowsDropped` | LoadedCSV.cpp:228-235 | A row without a comma after the ID field, and a row with an empty type field, give no record. |
| `EquipmentTable.LoadKeptThenDropped` | LoadedCSV.cpp:215-237 | Two kept rows followed by two dropped rows give the two records in file order, whatever the header. |
| `EquipmentTable.SampleTable` | LoadedCSV.cpp:189-240 | A four-row table with a newline-terminated header loads as the two kept records, in order. |

## Left out

- File access (`fopen_s`, `fgets`, `fclose`): the file is taken as its sequence of lines, and I/O failures are not modelled.
- The branch for a file that cannot be opened: it builds an exception without throwing it and then reads from a NULL stream, which is undefined behaviour.
- The 256-byte `line` and `field` buffers: a line longer than 255 characters would be split by `fgets` into several lines, and a field could overflow `field`. Lines are taken as already split, and fields have no length bound.
- `CsvField.ReadField`: a scan that finds no closing quote on the line returns `UnterminatedQuote`, and the loader fails the whole load. The C code's scan does not stop there. It reads on past the line's terminator into the bytes that earlier, longer lines left in the 256-byte `line` buffer. It can find a quote there, so it can build a field, and even a whole record, from those leftovers. For example, the header `"Equip ID(Hex)","Equipment Type"` followed by the line `"1` gives the record 1 / `Equipment Type`. The scan leaves the buffer, which is undefined behaviour, only when no quote remains in it. The model does not track the buffer's leftover bytes and returns `UnterminatedQuote` in all of these cases.
- An empty line, which `fgets` never returns: there the C code reads index 1 of the buffer, which is left over from the previous line. The model reads NUL there.
- Locale-dependent behaviour of `strtol` and `isspace`: only the "C" locale is modelled.
- The `Transmission`, `BNR` and `BCD` structures and their lists (LoadedCSV.cpp:72-184): they are declared but never filled, so they have no behaviour.
- The vendor library glue and `sample_LoadedCSV` (LoadedCSV.cpp:27-42, 273-282), and the sample driver in `main.cpp`: they only call into code outside this model.
- The `equipmentList` member that the C code clears and fills: it is modelled as the returned list, not as object state.
