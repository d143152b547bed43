# go-fuzz-headers consumer, modelled in Dafny

This project models `consumer.go` of go-fuzz-headers. The file is a small,
deterministic decoder that turns a fuzzer's raw byte buffer into typed
values. It has four parts:

- the cursor decoders `GetInt`, `GetBool`, `GetBytes` and `GetString`.
  Each reads the buffer at a position and either returns a value and moves
  the position past the bytes it consumed (none for `GetBytes` and
  `GetString` when the length byte is 0), or returns an error and leaves
  the position where it was;
- `ConsumeFuzzer.Split`, which carves the buffer into a call-count header
  byte, one command-selector byte per call, and a parameter tail whose
  length is a multiple of the call count;
- `GenerateStruct`, which fills a record's fields in declaration order from
  one shared position and stops at the first decoder error;
- the helper `IsDivisibleBy`, built on Go's truncating `%`.

Files and modules:

- `wrappers.dfy` (`Wrappers`): `Option`. `None` stands for a `nil` error.
- `go_types.dfy` (`GoTypes`): Go's `byte`, `string` as a byte sequence, and
  Go's truncating integer `/` and `%` (Dafny's are Euclidean).
- `decoders.dfy` (`Decoders`): `IsDivisibleBy`, the four decoders, and
  their round trips and boundary lemmas. A decoder returns a
  `Decoded(value, position, error)`. This replaces Go's pointer-passed
  position.
- `consumer.dfy` (`Consumer`): the `ConsumeFuzzer` record, `NewConsumer`,
  `Split`, and the `Join` layout that `Split` inverts.
- `structs.dfy` (`Structs`): field kinds and values, the per-field step
  `DecodeField`, the reference fold `Populate`, the loop `GenerateStruct`,
  lemmas about the fold, and the type switch as written
  (`PopulateAsWritten`).

A record is the sequence of its field values. Each value carries its
field's kind: `string`, `bool`, `int`, `[]byte`, `[]string`, or any other
type. These are the cases of the type switch in `GenerateStruct`. The
switch compares the name `reflect` reports for a field's type. For a
`[]byte` field that name is "[]uint8", because `byte` is an alias of
`uint8`. The `[]byte` case (consumer.go:101-107) is therefore never
reached, and such a field falls to the default case and is skipped.
`Populate` and `GenerateStruct` model the intended behaviour: a `[]byte`
field is decoded with `GetBytes`. `PopulateAsWritten` models the switch as
written (see "## Findings").
Filling works from any initial contents. A record of zero values
(`ZeroRecord`) is the usual special case.

Some behaviours of the code that a reader might not expect:

- `GetBytes` and `GetString` return the `L` bytes that start at the length
  byte. The length byte is therefore the first byte returned. The cursor
  moves by `L`, not `L + 1`. `GetBytesKeepsLengthByte` shows the
  difference on the buffer `[L, p0, ..., p(L-1), x]`.
- With the record (string, bool, int) and the buffer
  `[2, 'h', 'i', 1, 7]`, the code yields string `[2, 'h']`, bool `false`
  and int `1`. This is proved in `StringBoolIntExample`.
- A failing decoder leaves the position unchanged.
- `Split` has a fifth check, the command-part length test. It cannot fail
  once the length check has passed, and `Split`'s contract proves so.

## Model

| member | source | states |
|---|---|---|
| GoTypes.Quo | consumer.go:17 | Go's truncating quotient: its magnitude is the whole number of times the divisor fits into the dividend, and a non-zero quotient is negative exactly when the signs differ |
| GoTypes.Rem | consumer.go:17 | Go's `%`: dividend equals quotient times divisor plus remainder, the remainder is smaller than the divisor in magnitude and takes the dividend's sign |
| Decoders.IsDivisibleBy | consumer.go:16-18 | true exactly when the divisor divides the number, that is, when the Euclidean remainder is 0, although Go's remainder truncates; a zero divisor is excluded, since Go panics on it |
| Decoders.GetInt | consumer.go:116-123 | succeeds iff `pos < |data|`; the value is `data[pos]`, in 0..255, and the position becomes `pos + 1`; on failure it returns 0 with the int error and the position unchanged |
| Decoders.GetBool | consumer.go:153-165 | fails only when `pos >= |data|`, returning false with the position unchanged; otherwise true iff `data[pos]` is even, and the position advances by exactly 1 |
| Decoders.GetBytes | consumer.go:125-137 | with `L = data[pos]`, succeeds iff `pos < |data|` and `pos + L < |data|`; returns `data[pos..pos+L]` of length `L`, starting with the length byte; the new position is `pos + L`, strictly inside the buffer; on failure an empty slice, the byte-array error and the position unchanged |
| Decoders.GetString | consumer.go:139-151 | accepts and rejects exactly the inputs `GetBytes` does, moves the position the same way and returns the same bytes; on either failure path it returns the text "nil" with the string error |
| Decoders.DecodersStayInBounds | consumer.go:116-165 | from a position inside the buffer, no decoder moves the position backwards or past the buffer's end |
| Decoders.GetIntReadsByte | consumer.go:116-123 | a byte placed at the position is read back as that integer, and the position moves past it |
| Decoders.EncodeBool | consumer.go:158 | the byte chosen for a boolean is even exactly when the boolean is true |
| Decoders.GetBoolReadsEncodedBool | consumer.go:153-165 | `GetBool` inverts `EncodeBool` at any position, advancing by one |
| Decoders.GetBoolIsParityOfGetInt | consumer.go:116-123 | `GetBool` succeeds exactly when `GetInt` does, moves the position the same way and reports whether the integer is even |
| Decoders.GetBytesReadsChunk | consumer.go:125-137 | a chunk whose first byte is its own length, followed by at least one byte, is returned whole, and the position lands at the chunk's end |
| Decoders.GetBytesRejectsChunkAtEnd | consumer.go:131-132 | the same chunk placed at the very end of the buffer is rejected: a slice may not reach the last byte |
| Decoders.GetBytesZeroLength | consumer.go:130-135 | a zero length byte inside the buffer gives an empty slice and leaves the position where it was |
| Decoders.GetBytesKeepsLengthByte | consumer.go:134-135 | on `[L, p0..p(L-1), x]` the result is the length byte and the first `L - 1` payload bytes, and the position is `L`, not `L + 1` |
| Consumer.NewConsumer | consumer.go:20-23 | the consumer holds the given buffer; its derived views start at Go's zero values |
| Consumer.Split | consumer.go:40-71 | the buffer is never changed; success iff the buffer is non-empty, `n = data[0]` is in `[minCalls, maxCalls]`, at least `2n + 1` bytes are present and the tail length is a multiple of `n`; on success the views are `data[1..n+1]`, `data[n+1..]` and `n`, and header, commands and tail rebuild the buffer; each error is tied to exactly its own condition; on every error the consumer is unchanged; the command-length error never occurs; inputs on which Go divides by zero are excluded |
| Consumer.Join | consumer.go:54-56 | lays out a header byte equal to the command count, the command bytes, and then the tail, so the slices `Split` takes recover both parts |
| Consumer.SplitOfJoin | consumer.go:45-70 | for any command bytes of an in-range count and any tail of a length that is a multiple of that count and at least as long, `Split` of their `Join` succeeds with exactly those parts |
| Consumer.SplitThenJoin | consumer.go:54-69 | after a successful split the call count is positive, equals the command length, the tail is a non-empty multiple of it, and `Join` of the parts is the buffer |
| Consumer.SplitIsIdempotent | consumer.go:40-71 | calling `Split` again on its own result yields the same outcome, whether the first call succeeded or failed |
| Consumer.SplitDependsOnlyOnData | consumer.go:40-71 | two consumers over the same buffer get the same error, and on success the same views, whatever their earlier views were |
| Consumer.SplitThreeCalls | consumer.go:40-71 | `[3, c0, c1, c2, r0..r5]` with bounds 1..5 splits into 3 calls, commands `[c0, c1, c2]` and tail `[r0..r5]` |
| Consumer.SplitRejectsUnevenTail | consumer.go:63-66 | `[3, c0, c1, c2, r0..r4]` is rejected with the not-divisible error, and the consumer is unchanged |
| Structs.DecodeField | consumer.go:78-110 | one field's step keeps the field's kind and never moves the position backwards or past the end; `[]string` and other kinds are returned unchanged without consuming a byte; a decodable field fails exactly when its decoder's bounds check fails, with that kind's error and the position unchanged; on success an `int` field gets `data[pos]` and a `bool` field gets whether `data[pos]` is even, both moving the position by 1, and a `string` or `[]byte` field (the intended `[]byte` case) gets the `data[pos]` bytes that start at `pos`, moving the position by `data[pos]` |
| Structs.Populate | consumer.go:73-114 | reference fold over the fields: the record keeps its length and every field's kind, skipped fields keep their contents, and the position never decreases or passes the buffer end |
| Structs.ReflectTypeName | consumer.go:77 | the type name `reflect` reports for each listed field kind: it is never "[]byte"; it is "[]uint8" exactly for a `[]byte` field; every other kind's name is one of the switch's other case names |
| Structs.SwitchCase | consumer.go:78-110 | the case the switch selects for a type name: the default case exactly when the name is none of "string", "bool", "int", "[]string", "[]byte", and the `[]byte` case exactly for the name "[]byte" |
| Structs.AsWrittenKindOfField | consumer.go:77-110 | the case the switch selects for the name `reflect` reports: a `[]byte` field, named "[]uint8", falls to the default case, and every other field lands in its own kind's case |
| Structs.DecodeFieldAsWritten | consumer.go:77-110 | one field's step as written: a `[]byte` field is returned unchanged without consuming a byte, and every other field is decoded as `DecodeField` decodes it |
| Structs.PopulateAsWritten | consumer.go:73-114 | the fold as written: the record keeps its length, `[]byte` fields keep their contents, and the position stays between the start and the buffer end |
| Structs.AsWrittenAgreesWithoutByteSlices | consumer.go:77-110 | on a record with no `[]byte` field, the fold as written and the intended fold give the same fields, position and error |
| Structs.AsWrittenDropsByteSlices | consumer.go:76-113 | the fold as written passes over `[]byte` fields and goes on: it reads the buffer exactly as the intended fold does on the record without its `[]byte` fields, giving the same final position, the same error, and the same values in the other fields |
| Structs.ByteSliceThenIntExample | consumer.go:76-109 | for `struct{ B []byte; I int }` and the buffer `[7]`, the code as written leaves `B` as it was and sets `I` to 7 at position 1 |
| Structs.ByteSliceFieldIsSkipped | consumer.go:101-109 | for `struct{ B []byte }` and the buffer `[1, 5]`, the code as written leaves `B` as it was at position 0 with no error, while the intended fold sets `B` to `[1]` at position 1 |
| Structs.PopulateStopsAtFailingField | consumer.go:80-106 | an error from the fold comes from a decodable field whose decoder fails at the final position; the error is that field's kind's error, and that field and every later one are untouched |
| Structs.PopulateHeadFails | consumer.go:80-83 | when the first field's decoder fails, the record comes back untouched with that field's kind's error and the position unmoved |
| Structs.GenerateStruct | consumer.go:73-114 | the loop from position 0, one step per field in declaration order, returning on the first error, produces exactly the fields and the error of the reference fold; the record keeps its length, and `[]string` and other fields come back unchanged |
| Structs.PopulateAppend | consumer.go:76-112 | filling `a + b` means filling `a` and then, unless `a` failed, filling `b` from where `a` stopped; if `a` failed, `b` is left untouched |
| Structs.PopulateAbortsAtFirstFailure | consumer.go:80-106 | when the fields before `f` decode and `f`'s decoder then fails, the result has the earlier fields decoded, `f` and everything after it as they were, and `f`'s kind's error |
| Structs.SkippedFieldsConsumeNothing | consumer.go:99-109 | filling a record reads the buffer exactly as filling only its decodable fields: same final position, same error, same decoded values |
| Structs.PopulateIntRecordFits | consumer.go:92-98 | a record of `int` fields with one byte per field remaining fills without error; field `i` gets byte `pos + i` and the position ends one past the last byte read |
| Structs.PopulateIntRecordRunsOut | consumer.go:92-98 | with fewer bytes left than `int` fields, filling stops at the buffer's end with the int error |
| Structs.PopulateIntHead | consumer.go:92-98 | an `int` field at a position inside the buffer takes the byte there and the fold goes on one byte later |
| Structs.StringBoolIntExample | consumer.go:73-114 | (string, bool, int) on `[2, 'h', 'i', 1, 7]` gives `[2, 'h']`, false and 1, stopping at position 4 |
| Structs.StringBoolIntRunsOut | consumer.go:73-114 | the same record on `[2, 'h', 'i']` fails at the int with the int error, and the int field keeps its zero value |

## Left out

- Go reflection (`reflect.ValueOf`, `Elem`, `Type().Field(i).Type.String()`, the `Set*` calls). The record is modelled as a sequence of field values, and the type name `reflect` reports as a function of the value's kind (`ReflectTypeName`). Any type name other than the five listed is the `Other` kind, and pointer and nested-struct fields fall under it too.
- `fmt.Println` diagnostics at lines 42 and 102. They are output only.
- Error message texts. Errors are enum constructors. Lines 60 and 65 share one message in the source but get distinct constructors here.
- Go slice aliasing. Slices are immutable sequences. A failing `GetBytes` returns Go's `nil` slice, modelled as the empty sequence.
- A negative position, on which Go panics. Positions are `nat`.
- Consumer.Split: the Go code panics with a division by zero when the header byte is 0 and `minCalls <= 0 <= maxCalls`. This is a precondition (`!SplitPanics`), not a modelled outcome. With `minCalls >= 1` it always holds.
- `SetInt(int64(newInt))`: the decoded integer is in 0..255, so the conversion to 64 bits never changes it and is not modelled.
- Dividing the parameter tail into per-call chunks and dispatching commands. That is the calling harness's job and not part of this code.

## Findings

| source | as written | input that shows it | evidently intended | confidence | as-written member | corrected member |
|---|---|---|---|---|---|---|
| consumer.go:77-109 | the switch matches the type name against `"[]byte"`, but `reflect` names a `[]byte` field's type `"[]uint8"`, so the field falls to `default: continue` | `struct{ B []byte }` with the buffer `[1, 5]`: `B` stays `nil`, no byte is read, `nil` is returned | `B` is set to `GetBytes`' result `[1]` and the position moves to 1 | high (Go's `byte` is an alias of `uint8`); not executed | Structs.PopulateAsWritten, Structs.ByteSliceFieldIsSkipped | Structs.DecodeField, Structs.Populate, Structs.GenerateStruct |
