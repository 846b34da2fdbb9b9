# sdif-conv: the SDIF record encoder, in Dafny

sdif-conv writes swim-meet results as SDIF: each record is one row of 162
bytes. Bytes 0-1 hold the two-letter record tag. Every field sits at a fixed
1-indexed column and width, which a Go struct tag such as
`sdif:"start=12,len=30,code=004"` declares. This project models:

- the layout-descriptor parser `NewSdifTag` / `parseSdifTagInt`
  (`descriptor.dfy`, on top of `strings.Split` in `bytes.dfy` and
  `strconv.Atoi` / `%d` in `decimal.dfy`);
- the field writers `encodeString`, `encodeInt`, `encodeFloat` and
  `encodeDate` (`field_writers.dfy`), as functions on a slice's contents and
  as in-place methods on the row buffer;
- `encodeRecord` (`encoder.dfy`): the blank 162-byte buffer, the reflection
  loop over the fields, the type switch, the trailer and the one write to
  the sink;
- the record types of records.go as schema tables (`records.dfy`), with the
  encoder's theorems applied to them. Each table is a constant that lists,
  field by field, the struct tag and the Go type: `MeetHostRecord`
  (records.go:44-56), `TeamIdRecord` (58-73), `TeamEntryRecord` (75-89),
  `IndividualEventRecord` (91-124), `IndividualContactRecord` (126-143),
  `IndividualInfoRecord` (145-161), `RelayEventRecord` (163-192),
  `RelayNameRecord` (194-212), `FileTerminatorRecord` (240-242),
  `FileDescriptionRecord` (244-258), `FileTerminationRecord` (260-265) and
  `MeetRecord` (267-285).

The row encoder is proved once for any descriptor parser and any
width-keeping writer. This is `Encoder.FieldCodec`. `Encoder.Sdif(num)` is
the parser and type switch the Go code uses.

The main results:

- With pairwise disjoint layouts inside the row, a row encodes exactly when
  each value fits a blank slice of its width. Each field's columns then hold
  what its writer made of those blanks. Every other byte keeps the tag or a
  blank. The row ends in the letters `r` `n`.
- Parsing inverts the layout strings records.go writes.
- Every record type except `IndividualInfoRecord` is well-formed.
  `IndividualInfoRecord` never encodes.

Several points of the code are worth stating plainly, because the SDIF
format or the code's own comments suggest otherwise. The model follows the
code in each:

- Bytes 160-161 are the letters `r` and `n` (main.go:141-142), not a
  carriage return and a line feed.
- The comment at main.go:162 asks for numeric text to be right-aligned. The
  code instead hands such text to `encodeFloat`, which left-aligns it like
  any other text.
- `encodeString` checks the raw length (main.go:158) before the numeric
  re-route. So the organisation code `"1"` passes that check for a one-byte
  field and then fails as `1.000000`. The file-description record built in
  main.go's `main` is such a case.
- `encodeDate` copies at most as many bytes as the slice holds, and it
  never fails (main.go:195-199).
- The sink's byte count is compared with `!=` (main.go:150), so a count
  above 162 is an error too.
- `reflect.StructTag.Get` is case-sensitive. The YMCA/YWCA field's tag
  `SDIF:"START=36,LEN=1"` (records.go:151) therefore yields an empty
  descriptor.

## Model

| member | source | states |
|---|---|---|
| `Decimal.Atoi` | main.go:32 | `strconv.Atoi`: an optional sign and one or more decimal digits, whose value must fit a 64-bit `int`; anything else is no number |
| `Decimal.FormatInt` | main.go:172 | `fmt.Sprintf("%d", n)`: a `-` for a negative `n`, then the decimal digits of its magnitude |
| `Bytes.Split` | main.go:46-47 | `strings.Split` with a one-byte separator: the pieces between separators, empty ones included; `""` gives one empty piece |
| `Decimal.AtoiFormatInt` | main.go:32 | `strconv.Atoi` reads back the `%d` text of every 64-bit integer |
| `Decimal.AtoiRejects` | main.go:32-35 | a byte that is neither a digit nor a leading sign makes `Atoi` fail |
| `Decimal.FormatIntShape` | main.go:172 | `%d` text has a leading `-` exactly for negatives, then digits without a leading zero, and never ends in a blank |
| `Bytes.JoinSplit` | main.go:46 | joining the pieces of `strings.Split` gives back the string |
| `Bytes.SplitLength` | main.go:46 | a string with k separators splits into k+1 pieces |
| `Bytes.SplitPiecesFree` | main.go:46-47 | no piece contains the separator |
| `Bytes.SplitJoin` | main.go:46 | splitting undoes joining pieces that are free of the separator |
| `Bytes.SplitConcat` | main.go:46 | splitting at any separator gives the pieces before it followed by the pieces after it |
| `Descriptor.KeyValues` | main.go:46-52 | the loop over the pieces: their `key=value` pairs in order, or the first piece that does not split into two parts on `=` |
| `Descriptor.Lookup` | main.go:51 | the map read `kvs[key]` after the loop's assignments: the value of the key's last pair, if any |
| `Descriptor.ParseTagInt` | main.go:26-37 | `parseSdifTagInt`: an absent key reads as 0, a present value must pass `strconv.Atoi`, and a value that does not gives an error naming the key and the text |
| `Descriptor.ParseSdifTag` | main.go:39-70 | what `NewSdifTag` returns: the empty-string error, the first bad piece, a bad `start`, a bad `len`, or the start, width and code |
| `Descriptor.NewSdifTag` | main.go:39-70 | the loop that fills the map returns exactly what `ParseSdifTag` specifies |
| `Descriptor.KeyValuesOk` | main.go:46-52 | the loop gets through the pieces exactly when each splits into two parts on `=`; it then holds their pairs in order |
| `Descriptor.KeyValuesFirstBad` | main.go:46-50 | the loop stops at the first piece that is not a pair and reports that piece |
| `Descriptor.KeyValuesKeepsError` | main.go:46-50 | once a prefix holds a bad piece, the whole string reports that piece |
| `Descriptor.KeyValuesConcat` | main.go:46-52 | the loop over two lists of pieces gives the first list's pairs then the second's, or the first error |
| `Descriptor.LookupLast` | main.go:51 | the map read finds the last pair with the key, and is absent exactly when no pair has it |
| `Descriptor.LookupInsert` | main.go:51 | an assignment under one key, wherever it falls in the loop, leaves the map read of every other key as it was |
| `Descriptor.ParseSdifTagAccepts` | main.go:26-70 | success exactly when the string is not empty, all pieces are pairs, and `start` and `len` are absent or integers; the result is those integers (0 when absent) and the code (empty when absent) |
| `Descriptor.ParseSdifTagRejects` | main.go:39-61 | the empty-string error, the first bad piece, and a bad `start` before a bad `len` |
| `Descriptor.RenderRoundTrip` | main.go:39-70 | `start=S,len=L[,code=C]` parses back to exactly start S, width L and code C |
| `Descriptor.AppendedPairs` | main.go:46-52 | appending `,k=v` adds that pair after the string's pairs |
| `Descriptor.IgnoresUnknownKey` | main.go:51-67 | a pair under a key other than `start`, `len` and `code`, appended to a non-empty string, changes nothing |
| `Descriptor.IgnoresUnknownPiece` | main.go:46-67 | such a pair between any two parts of the string, each followed or preceded by a comma, changes nothing |
| `Descriptor.LastStartWins` | main.go:51-57 | an appended `start=N` with N not negative, after pairs whose `len` is readable, overrides earlier `start` pairs, malformed ones included, and leaves width and code alone |
| `Descriptor.ParsesWithoutCode` | main.go:63-67 | `start=12,len=30` gives start 12, width 30 and an empty code |
| `Descriptor.RejectsNonInteger` | main.go:54-57 | `start=abc,len=5` fails on `start` with the text `abc` |
| `Descriptor.RejectsPieceWithoutEquals` | main.go:47-50 | `start=3,len` fails at the piece `len` |
| `FieldWriters.StringField` | main.go:157-169 | `encodeString` on a slice's contents: too long an error, numeric text through the float writer, other text copied in; a success keeps the width |
| `FieldWriters.IntField` | main.go:171-181 | `encodeInt` on a slice's contents: the `%d` text put into the slice; a success keeps the width |
| `FieldWriters.FloatField` | main.go:183-193 | `encodeFloat` on a slice's contents, given the `%f` text; a success keeps the width |
| `FieldWriters.DateText` | main.go:196 | `Format("01022006")`: two-digit month, two-digit day, four-digit year |
| `FieldWriters.DateField` | main.go:195-199 | `encodeDate` on a slice's contents: the date text copied in; a success keeps the width |
| `FieldWriters.Copy` | main.go:167 | Go `copy`: as many bytes as both slices hold come from `src`, the rest of `dst` stays |
| `FieldWriters.PutTextContract` | main.go:171-193 | `encodeInt`/`encodeFloat` fail exactly when the text is longer than the slice; otherwise the text is left-aligned and the rest kept |
| `FieldWriters.StringFieldContract` | main.go:157-169 | a raw string that is too long fails first; a non-numeric string is copied left-aligned; a numeric one becomes its float text and fails exactly when that is too long |
| `FieldWriters.NumericStringOverflows` | main.go:158-165 | `"1"` passes the raw check for a one-byte slice but fails as `1.000000` |
| `FieldWriters.StringFieldBoundary` | main.go:158-160 | a non-numeric string of exactly the width fills the slice; one byte more fails |
| `FieldWriters.IntFieldText` | main.go:171-181 | an integer in a blank field reads back, trailing blanks trimmed, as its decimal text; it fails exactly when that text is too wide |
| `FieldWriters.DateTextRoundTrip` | main.go:196 | MMDDYYYY is eight digits and reads back as the date |
| `FieldWriters.DateFieldContract` | main.go:195-199 | `encodeDate` never fails and writes the first min(8, width) bytes of MMDDYYYY, keeping the rest |
| `FieldWriters.CopyInto` | main.go:167 | `copy` into the part of the row buffer the slice aliases; the rest of the buffer is unchanged |
| `FieldWriters.EncodeString` | main.go:157-169 | in place on `b[lo..hi)`: the outcome and the new buffer of the string writer |
| `FieldWriters.EncodeInt` | main.go:171-181 | in place: the outcome and the new buffer of the integer writer |
| `FieldWriters.EncodeFloat` | main.go:183-193 | in place: the outcome and the new buffer of the float writer |
| `FieldWriters.EncodeDate` | main.go:195-199 | in place: the outcome and the new buffer of the date writer |
| `Encoder.Get` | main.go:97 | `reflect.StructTag.Get`: the value under exactly that key, or `""` |
| `Encoder.EncodeField` | main.go:97-137 | one pass of the field loop on the buffer: the layout error, the slice panic, the writer's error, or the buffer with the slice replaced; a success keeps the row length |
| `Encoder.EncodeFields` | main.go:96-138 | the field loop: each field in order, stopping at the first error; a success keeps the row length |
| `Encoder.AfterWrite` | main.go:144-152 | the sink's error first, then a byte count other than 162, otherwise success |
| `Encoder.WriteValue` | main.go:106-137 | the type switch keeps the slice's width |
| `Encoder.EncodeRow` | main.go:81-142 | a row that encodes is 162 bytes |
| `Encoder.WriteValueInto` | main.go:106-137 | in place: each value type goes to its writer; bool and `time.Duration` leave the buffer unchanged |
| `Encoder.WriteField` | main.go:97-137 | one loop iteration in place: a descriptor error, a slice panic, or the writer's outcome, with the new buffer on success and the old one on failure |
| `Encoder.WriteSlice` | main.go:104-137 | the iteration once the slice fits: the writer's outcome, the spliced buffer on success and the old one on failure |
| `Encoder.EncodeRecord` | main.go:76-155 | nothing is written when encoding fails; otherwise the 162-byte row is written once, and the sink's error or a count other than 162 is reported |
| `Encoder.EncodeFieldRejects` | main.go:97-104 | a field whose descriptor fails gives that error; a slice outside the buffer gives the panic's bounds |
| `Encoder.EncodeFieldWriterError` | main.go:104-137 | a field whose slice fits succeeds exactly when its writer does, and fails with the writer's error |
| `Encoder.EncodeFieldWrites` | main.go:104-137 | a field that encodes holds the writer's output in its slice |
| `Encoder.EncodeFieldKeeps` | main.go:104-137 | a field that encodes leaves every byte outside its slice as it was |
| `Encoder.SkippedField` | main.go:97-137 | a bool or duration field succeeds exactly when its layout parses and fits, and then changes nothing |
| `Encoder.EncodeFieldsAppend` | main.go:96-138 | the loop over fs ++ gs is the loop over fs, then over gs, stopping at the first error |
| `Encoder.BadLayoutFails` | main.go:96-101 | a field whose descriptor fails makes the row fail; with every earlier field encoding, with that field's error |
| `Encoder.EncodeFieldsFrame` | main.go:96-138 | a byte no field covers is left as it was |
| `Encoder.EncodeFieldsFrameRange` | main.go:96-138 | a stretch no field covers is left as it was |
| `Encoder.FieldContent` | main.go:96-138 | with disjoint layouts, each field's slice of the final buffer is what its writer made of the starting slice |
| `Encoder.AllWritersSucceed` | main.go:96-138 | with disjoint layouts, the loop gets through when every writer succeeds on its starting slice |
| `Encoder.EncodeFieldsSucceeds` | main.go:96-138 | with disjoint layouts that fit, the loop succeeds exactly when every writer does |
| `Encoder.RowShape` | main.go:81-142 | the row fails exactly for a tag that is not two bytes or a failing field; otherwise it ends in `r` `n` over the loop's buffer |
| `Encoder.RowUnwrittenBytes` | main.go:86-94 | a byte no field covers holds the tag (bytes 0-1) or a blank |
| `Encoder.RowFieldContent` | main.go:86-138 | with disjoint layouts, each field's columns hold its writer's output on blanks |
| `Encoder.RowSucceeds` | main.go:86-138 | with disjoint layouts inside the row, the row encodes exactly when every value fits a blank slice of its width |
| `Encoder.TypeSwitchKeepsWidth` | main.go:106-137 | the type switch keeps every slice's width, so the row theorems apply to it |
| `Records.DeclLayout` | main.go:97-98 | a field's tag as records.go writes it parses to exactly the declared start, width and code |
| `Records.LaidFields` | main.go:96-104 | in-order declarations inside the row give disjoint layouts inside the row |
| `Records.SchemaRowSucceeds` | main.go:76-142 | a record of a well-formed type encodes exactly when each value fits a blank slice of its declared width |
| `Records.SchemaColumn` | main.go:96-138 | each field's declared columns hold its value written into blanks |
| `Records.SchemaRowShape` | main.go:86-142 | the tag in bytes 0-1, blanks in undeclared bytes 2-159, `r` `n` at the end |
| `Records.UnwrittenColumns` | main.go:106-137 | bool and `time.Duration` columns stay blank |
| `Records.DateColumns` | main.go:132-136 | a date's eight columns hold its MMDDYYYY text |
| `Records.MeetHostWellFormed` | records.go:44-56 | B2 is well-formed: a two-letter tag and declarations in column order inside the row, each date field eight bytes wide |
| `Records.TeamIdWellFormed` | records.go:58-73 | C1 is well-formed: a two-letter tag and declarations in column order inside the row, each date field eight bytes wide |
| `Records.TeamEntryWellFormed` | records.go:75-89 | C2 is well-formed: a two-letter tag and declarations in column order inside the row, each date field eight bytes wide |
| `Records.IndividualEventWellFormed` | records.go:91-124 | D0 is well-formed: a two-letter tag and declarations in column order inside the row, each date field eight bytes wide |
| `Records.IndividualContactWellFormed` | records.go:126-143 | D2 is well-formed: a two-letter tag and declarations in column order inside the row, each date field eight bytes wide |
| `Records.RelayEventWellFormed` | records.go:163-192 | E0 is well-formed: a two-letter tag and declarations in column order inside the row, each date field eight bytes wide |
| `Records.RelayNameWellFormed` | records.go:194-212 | F0 is well-formed: a two-letter tag and declarations in column order inside the row, each date field eight bytes wide |
| `Records.FileDescriptionWellFormed` | records.go:244-258 | A0 is well-formed: a two-letter tag and declarations in column order inside the row, each date field eight bytes wide |
| `Records.MeetWellFormed` | records.go:267-285 | B1 is well-formed: a two-letter tag and declarations in column order inside the row, each date field eight bytes wide |
| `Records.IndividualInfoNeverEncodes` | records.go:145-161 | D3 always fails; with its first five fields encodable, the error is the empty descriptor of the YMCA/YWCA field |
| `Records.OrgCodeOverflows` | main.go:157-165 | an organisation code `"1"` that reads as `1.000000` makes any well-formed record with a one-byte first field fail with `FieldTooLong(8, 1)` |
| `Records.FileDescriptionOrgCode` | records.go:244-258 | the file description with organisation code `"1"` fails that way |
| `Records.FileTerminatorRow` | records.go:240-265 | both Z0 records encode as `Z0`, 158 blanks and `r` `n` |

## Left out

- The check at main.go:77-79 that the record is a struct: every record type is a struct, so that error cannot arise here.
- Reflection: a record is its schema table and its list of field values; the Go type system's checks on them become `Records.Typed`.
- Floating point: `strconv.ParseFloat` and `%f` are a parameter `num` (the `%f` text of a string that parses), and a `float32` field holds its `%f` text.
- `time.Time` is a calendar date; only `Format("01022006")` is modelled.
- `FieldWriters.Time` takes years 0 to 9999 and days 1 to 31 in any month. In that range `Format("01022006")` prints exactly eight digits. Go prints another width outside it: five digits for the year 10000, a leading `-` for a negative year. The clock time, the time zone and the calendar check are not modelled.
- The `io.Writer`: its reply is a parameter, and `EncodeRecord` returns the bytes passed to it.
- Error texts from `fmt.Errorf` are modelled as the `Errors.Error` cases, without wording or wrapping.
- The `log.Printf` calls and the panic on a slice outside the buffer: the panic is the error `SlicePanic`.
- `SplitsRecord` (records.go:214-238) is not valid Go and is left out.
- `main` and `MeetPyramid` (main.go:201-256) are a program entry point, not part of the encoder.
- The `code=` value is parsed but never consulted when encoding, and code tables are not modelled.
- Concurrency: the encoder has none.
- The Go `int` is 64-bit, so an `int` field holds an `Int64` and `Atoi` rejects values outside that range.
