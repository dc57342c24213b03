/**
  The RESP datum and the shapes of the decoder's answers.
 */
module RespValue {
  import opened Bytes
  import opened Strconv

  /**
    A RESP value (resp.go:18-24). The Go struct carries every field for
    every `typ`; each constructor keeps only the field its `typ` uses.
   */
  datatype Value =
    | Array(elems: seq<Value>)        // typ "array"
    | Bulk(bytes: seq<byte>)          // typ "bulk"
    | SimpleString(text: seq<byte>)   // typ "string"
    | Error(text: seq<byte>)          // typ "error"
    | Null                            // typ "null"
    | Other                           // any other typ, the zero Value{} among them

  /** The errors the decoder returns. */
  datatype Fault =
    | EndOfInput   // the byte source is exhausted (io.EOF)
    | BadInteger   // strconv.ParseInt rejected a length line

  /**
    The answer of a line-level reader: a value and the count `n` of bytes
    it consumed; or a failure with the count the source reports alongside
    the error.
   */
  datatype Scan<+T> =
    | Scanned(value: T, n: nat)
    | ScanFailed(n: nat, fault: Fault)

  /**
    The answer of a value-level reader.
    - Done: the value and the position just after it.
    - Failed: the value Go returns next to the error, and the error.
    - Panicked: `make` was asked for a negative length, or for more memory
      than Go will allocate at once, and Go panics.
    - Undetermined: the input ends inside a bulk payload; what Go returns
      then depends on the reader's buffering, which is not modelled.
   */
  datatype Decode<+T> =
    | Done(value: T, next: nat)
    | Failed(partial: T, fault: Fault)
    | Panicked
    | Undetermined

  /**
    Go's `makeslice` panics when a slice would take more than `MaxAlloc`
    bytes: 2^48 on 64-bit Linux, the limit of the heap's address space.
   */
  const MaxAlloc: nat := 0x1_0000_0000_0000

  /** The size of the `Value` struct: three strings, an int and a slice header, on 64 bits. */
  const ValueSize: nat := 16 + 16 + 8 + 16 + 24

  /** The longest `[]Value` that `make` allocates. */
  const MaxValues: nat := MaxAlloc / ValueSize

  /** The longest `[]byte` that `make` allocates. */
  const MaxBytes: nat := MaxAlloc

  /** `m` occurs in `buf` at position `pos`. */
  predicate IsAt(buf: seq<byte>, pos: nat, m: seq<byte>) {
    pos + |m| <= |buf| && forall k :: 0 <= k < |m| ==> buf[pos + k] == m[k]
  }

  /**
    The values the decoder can produce: arrays, bulk strings and the zero
    value, with every length one that `make` allocates.
   */
  predicate DecoderShape(v: Value) {
    match v
    case Array(elems) =>
      |elems| <= MaxValues && forall i :: 0 <= i < |elems| ==> DecoderShape(elems[i])
    case Bulk(bytes) => |bytes| <= MaxBytes
    case Other => true
    case _ => false
  }

  predicate AllDecoderShape(xs: seq<Value>) {
    forall i :: 0 <= i < |xs| ==> DecoderShape(xs[i])
  }

  /** Trees of "array" and "bulk" nodes no longer than Go can allocate, as any Go slice is. */
  predicate BulkArrayTree(v: Value) {
    match v
    case Array(elems) =>
      |elems| <= MaxValues && forall i :: 0 <= i < |elems| ==> BulkArrayTree(elems[i])
    case Bulk(bytes) => |bytes| <= MaxBytes
    case _ => false
  }
}
