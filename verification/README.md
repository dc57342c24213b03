# RESP codec of resp.go, modelled in Dafny

This project models the codec at the heart of `resp.go`: the decoder that reads
REdis Serialization Protocol values from a buffered byte reader (`readLine`,
`readInteger`, `readArray`, `readBulk`, `Read`) and the encoder that writes a
`Value` back to bytes (`Marshal` and its `marshal…` helpers). It proves what
the decoder accepts and rejects, how the encoder frames each value, and that
decoding inverts encoding on the values the decoder understands.

Layout, leaves first:

- `bytes.dfy` (module `Bytes`): the byte type, the tag bytes `+ - : $ *` and the
  ASCII characters used in the protocol.
- `strconv.dfy` (module `Strconv`): the two conversions of Go's `strconv`
  package the codec calls, namely `Itoa` and `ParseInt(s, 10, 64)`. The latter
  is written as Go's digit loop with its 64-bit overflow test.
- `resp_value.dfy` (module `RespValue`): `Value`, the decoder's error kinds, and
  the shapes of the readers' answers.
- `resp_read.dfy` (module `RespRead`): the decoder. The `bufio.Reader` becomes
  a byte sequence `buf` and the position `pos` of the next byte it would
  deliver. The line readers return the count of bytes they consumed, as
  `readLine` and `readInteger` do. The value readers return the position after
  the value.
- `resp_marshal.dfy` (module `RespMarshal`): the encoder.
- `resp_roundtrip.dfy` (module `RespRoundTrip`): the round trip, the element
  loop's sequencing, the decoder's quirks on encodings it does not understand,
  and worked examples.

Outcomes of the decoder (`Decode`):

- `Done(value, next)`: the value was read.
- `Failed(partial, fault)`: Go returns an error. `partial` is the `Value` it
  returns alongside, which is one of:
  - `Value{}` when an array's count line fails;
  - an empty bulk string when a bulk length line fails;
  - the array read so far, with zero values in its unfilled slots, when an
    element fails.
- `Panicked`: `make` is given a negative length, or one whose slice would
  take more than 2^48 bytes (`MaxValues` values, `MaxBytes` bytes), and Go
  panics.
- `Undetermined`: fewer payload bytes remain than a bulk header announces, so
  the outcome depends on the reader's buffering (see Left out).

Where the code departs from the RESP protocol, the model follows the code:

- An unknown tag byte gives the zero `Value{}` and no error. `+`, `-` and `:`
  count as unknown here (`Read`, `StatusLineNotDecoded`).
- The length `-1` is not decoded as null. `$-1` and `*-1` reach `make` with a
  negative length, which panics (`NullMarkersPanic`). The encoder still writes
  a null as `$-1\r\n`.
- A line ends at the first CR and takes the following byte whatever it is,
  LF or not (`ReadLine`).
- The line after a bulk payload is dropped, whatever it holds
  (`BulkTrailerIsAnyLine`), and so is the error when no line is left
  (`BulkTrailerMayBeMissing`).
- An element error returns the partially filled array together with the error.
  The partial array is not discarded (`ReadArrayOutcome`).

## Model

| member | source | states |
|---|---|---|
| `Strconv.ItoaSpec` | resp.go:163 | `strconv.Itoa` of a length prints a canonical decimal numeral (no sign, no leading zero, no CR) whose value is that length |
| `Strconv.ParseUintFromSpec` | resp.go:69 | the unsigned digit loop of `ParseInt` accepts exactly the all-digit strings whose value fits in 64 bits, and returns that value |
| `Strconv.ParseIntSpec` | resp.go:69 | `ParseInt(s, 10, 64)` succeeds exactly on an optional sign plus one or more digits denoting a value in int64 range, and returns that value |
| `Strconv.ParseIntItoa` | resp.go:69 | parsing reads back every non-negative int64 the encoder prints as a length |
| `Strconv.ItoaOfDigitsValue` | resp.go:195 | `Itoa` is the inverse of numeral evaluation on canonical numerals, so a count has exactly one printed form |
| `RespRead.FirstCRSpec` | resp.go:50-60 | the loop's stopping point is a CR, and no CR lies before it |
| `RespRead.ReadLine` | resp.go:49-62 | a line read consumes the line plus two bytes and stays within the input; on end of input it reports 0 bytes and the error |
| `RespRead.ReadLineSpec` | resp.go:49-62 | a line is read exactly when some CR precedes the last byte; the line is CR-free, lies at the read position and is followed by a CR |
| `RespRead.ScanLine` | resp.go:49-62 | the byte-at-a-time loop, stopping when the next-to-last byte read is a CR, computes the same answer as the declarative `ReadLine` |
| `RespRead.ReadInteger` | resp.go:64-74 | a successful integer read consumes bytes inside the input |
| `RespRead.ReadIntegerSpec` | resp.go:64-74 | readInteger succeeds exactly on a line holding an int64 decimal numeral, returning its value and the line's byte count; no line gives (0 bytes, end of input); a bad numeral gives (the line's bytes, bad integer) |
| `RespRead.Read` | resp.go:121-135 | a decoded value consumes at least its tag byte and stays within the input; empty input fails with end of input and the zero value; any tag other than `*` and `$` gives the zero value after consuming only the tag |
| `RespRead.ReadElements` | resp.go:86-94 | a completed element loop yields exactly `count` values; a failed one yields fewer than `count` |
| `RespRead.ReadArray` | resp.go:76-97 | a decoded array consumes at least its count line and stays within the input |
| `RespRead.ReadArrayOutcome` | resp.go:76-97 | a bad or missing count line gives the zero value with the error; a count below zero or above what `make` can allocate panics; a decoded array has exactly the announced count of elements; an array cut short by an element error keeps the announced count of slots, and its last slot holds the zero value |
| `RespRoundTrip.ReadArrayFailedLayout` | resp.go:85-90 | an array cut short by an element error has the announced count of slots: for some `k` below it, the first `k` are the elements that decoded in order from the body's start, the element after them failed with the array's error, and every later slot is the zero value |
| `RespRead.SkipLine` | resp.go:116 | the dropped trailing line never moves the reader backwards or past the end of the input |
| `RespRead.ReadBulk` | resp.go:99-119 | a decoded bulk string consumes at least its length line and stays within the input |
| `RespRead.ReadBulkOutcome` | resp.go:99-119 | a bad or missing length line gives an empty bulk string with the error; a length below zero or above 2^48 panics; a short input is left open; otherwise the payload is exactly the next `len` bytes, whatever they hold, and one more line is skipped |
| `RespRead.ReadShape` | resp.go:121-135 | every decoded value is an array, a bulk string or the zero value, with lengths `make` can allocate; strings, errors and nulls never come out |
| `RespRead.ReadElementsShape` | resp.go:86-94 | every element of a decoded array has the decoder's shape |
| `RespMarshal.Marshal` | resp.go:143-158 | the encoding is empty exactly for the types `Marshal` has no case for |
| `RespMarshal.MarshalArray` | resp.go:192-201 | an array encodes as `*`, then the count and CRLF, then exactly the elements' bytes |
| `RespMarshal.MarshalBulk` | resp.go:160-169 | a bulk string encodes as `$` followed by the printed length, the payload and four more bytes (CRLF twice) |
| `RespMarshal.MarshalString` | resp.go:184-190 | a simple string encodes as `+`, the text and two more bytes |
| `RespMarshal.MarshalError` | resp.go:171-178 | an error encodes as `-`, the text and two more bytes |
| `RespMarshal.MarshalNull` | resp.go:180-182 | a null encodes as the five bytes starting with `$` |
| `RespMarshal.MarshalFraming` | resp.go:143-158 | every non-empty encoding starts with its type's tag byte and ends with CRLF |
| `RespMarshal.MarshalElemsEmpty` | resp.go:197-199 | the elements' encodings are empty exactly when every element is of a type with no encoding |
| `RespMarshal.MarshalElemsFraming` | resp.go:197-199 | non-empty elements' encodings end with CRLF |
| `RespMarshal.MarshalElemsAppend` | resp.go:197-199 | encoding the elements of a concatenation concatenates their encodings |
| `RespRoundTrip.LineAt` | resp.go:49-62 | CR-free text, a CR and any one byte is read as that text, consuming its length plus two |
| `RespRoundTrip.SkipLineAt` | resp.go:116 | the trailing line read skips CR-free text, a CR and any one byte |
| `RespRoundTrip.IntegerAt` | resp.go:64-74 | on one line, readInteger gives the numeral's value when it is an int64 and a bad integer otherwise |
| `RespRoundTrip.ItoaAt` | resp.go:64-74 | readInteger reads back every length the encoder prints |
| `RespRoundTrip.BulkAt` | resp.go:99-119 | a `$` header announcing the payload's length, then the payload, decodes to that payload followed by one skipped line |
| `RespRoundTrip.ArrayAt` | resp.go:76-97 | a `*` header announcing a count, followed by that many decodable elements, decodes to the array of those elements |
| `RespRoundTrip.BulkTrailerIsAnyLine` | resp.go:115-116 | the terminator after a payload need not be CRLF: any CR-free text, a CR and one byte are dropped |
| `RespRoundTrip.BulkTrailerMayBeMissing` | resp.go:116 | when no line follows the payload, the bulk string still decodes and the input is used up |
| `RespRoundTrip.RoundTripAt` | resp.go:121-135 | the encoding of any array/bulk tree, wherever it lies in the input, decodes to that tree and stops right after it, assuming the reader delivers each payload whole (see Left out, `RespRead.ReadBulk`) |
| `RespRoundTrip.BulkRoundTripAt` | resp.go:160-169 | `readBulk` inverts `marshalBulk` for payloads of any content, CR and LF included |
| `RespRoundTrip.ArrayRoundTripAt` | resp.go:192-201 | `readArray` inverts `marshalArray` on arrays of trees |
| `RespRoundTrip.RoundTripElemsAt` | resp.go:86-94 | the element loop reads back the concatenated encodings of a sequence of trees, in order |
| `RespRoundTrip.RoundTrip` | resp.go:143-158 | decoding the encoding of an array/bulk tree followed by any bytes gives the tree and leaves exactly those bytes, assuming the reader delivers each payload whole (see Left out, `RespRead.ReadBulk`) |
| `RespRoundTrip.ElemsSplit` | resp.go:86-94 | reading `a + b` elements is reading `a`, then `b` more from where they stopped; a failure among the first `a` ends the whole read |
| `RespRoundTrip.ElemsStopAtFirstError` | resp.go:86-90 | a failed element loop returns exactly the elements before the first failing one, and that element fails with the same error |
| `RespRoundTrip.MinusOneAt` | resp.go:64-74 | the length line `-1` reads as the integer -1 |
| `RespRoundTrip.NullMarkersPanic` | resp.go:104-109 | the encoder's null `$-1\r\n`, and the null array `*-1\r\n`, make the decoder panic instead of decoding a null |
| `RespRoundTrip.StatusLineNotDecoded` | resp.go:131-133 | simple strings and errors decode to the zero value after their tag byte; a line read after the tag recovers the text |
| `RespRoundTrip.NestedArrayEncoding` | resp.go:192-201 | an array holding an array holding "a" encodes as `*1\r\n*1\r\n$1\r\na\r\n` |
| `RespRoundTrip.NestedArrayExample` | resp.go:76-97 | `*1\r\n*1\r\n$1\r\na\r\n` decodes to an array holding an array holding "a" |
| `RespRoundTrip.EmptyBulkExample` | resp.go:99-119 | `$0\r\n\r\n` decodes to the empty bulk string |
| `RespRoundTrip.NullBulkExample` | resp.go:109 | `$-1\r\n` panics rather than decoding to a null distinct from the empty bulk string |
| `RespRoundTrip.MalformedLengthExample` | resp.go:104-107 | `$abc\r\n` fails on its length line with an empty bulk string and the parse error |
| `RespRoundTrip.TruncatedPayloadExample` | resp.go:109-111 | `$5\r\nhel` announces more payload than the input holds |

## Left out

- The `bufio.Reader` and `bufio.Writer` are left out. The reader is modelled
  as the bytes it would still deliver and a position. The writer is modelled
  as the encoder's return value.
- `NewResp`, `NewWriter` and `Writer.Write` are left out. They wrap an
  `io.Reader` or `io.Writer` and copy bytes.
- Write errors are left out. I/O errors other than end of input are left out
  too: a byte sequence cannot fail to deliver.
- The `fmt.Printf` diagnostic for an unknown tag is left out.
- `Value.String` is left out. It is debug formatting.
- `strconv.ParseInt` reports a syntax error and a range error apart. Both are
  one `BadInteger` fault here, because the codec only passes the error on.
- The `num` field and any `typ` other than array, bulk, string, error and null
  all fall under `Other`. `Marshal` writes nothing for them, and the decoder
  produces only the zero `Value{}` among them.
- Go's `int` is taken to be 64 bits wide, so `int(i64)` in readInteger does
  not truncate. The width of `int` on other platforms is not modelled.
- `make` panics when a slice would take more than 2^48 bytes, the limit on
  64-bit Linux: above `MaxValues` = 2^48 / 80 array elements (a `Value` is 80
  bytes) or `MaxBytes` = 2^48 payload bytes. Other platforms have other
  limits. Running out of memory below the limit is not modelled.
- RespRead.ReadBulk: a single call to `bufio.Reader.Read` may return fewer
  bytes than asked. Examples are a payload longer than the buffer, or bytes
  that have not arrived yet; the rest of `make`'s zero bytes then stays in
  the payload.
  - The model assumes the payload is filled whenever the input holds enough
    bytes.
  - It leaves the outcome `Undetermined` when the input does not.
  - What Go then returns depends on the timing and buffering of the
    underlying reader.
