/**
  The decoder of resp.go: `readLine`, `readInteger`, `readArray`,
  `readBulk` and `Read`. The buffered reader becomes a byte sequence `buf`
  together with the position `pos` of the next byte it would deliver; the
  value-level readers return the position after what they consumed, the
  line-level readers the count of bytes they consumed, as the Go code does.

  The functions carry only the facts about positions their termination
  needs; what they compute is stated by the lemmas after each of them.
 */
module RespRead {
  import opened Bytes
  import opened Strconv
  import opened RespValue

  /** Index of the first carriage return in `buf` at or after `from`, or `|buf|` if there is none. */
  function FirstCR(buf: seq<byte>, from: nat): (i: nat)
    requires from <= |buf|
    ensures from <= i <= |buf|
    decreases |buf| - from
  {
    if from == |buf| || buf[from] == CR then from else FirstCR(buf, from + 1)
  }

  /** `FirstCR` finds a carriage return, and none lies before it. */
  lemma {:induction false} FirstCRSpec(buf: seq<byte>, from: nat)
    requires from <= |buf|
    ensures FirstCR(buf, from) < |buf| ==> buf[FirstCR(buf, from)] == CR
    ensures forall k :: from <= k < FirstCR(buf, from) ==> buf[k] != CR
    decreases |buf| - from
  {
    if from < |buf| && buf[from] != CR {
      FirstCRSpec(buf, from + 1);
    }
  }

  /** A carriage return with none before it is the one `FirstCR` finds. */
  lemma {:induction false} FirstCRAt(buf: seq<byte>, from: nat, j: nat)
    requires from <= j < |buf| && buf[j] == CR
    requires forall k :: from <= k < j ==> buf[k] != CR
    ensures FirstCR(buf, from) == j
    decreases j - from
  {
    if from < j {
      FirstCRAt(buf, from + 1, j);
    }
  }

  /** A slice of `buf` occurs in `buf` where it was cut. */
  lemma {:induction false} SliceIsAt(buf: seq<byte>, from: nat, to: nat)
    requires from <= to <= |buf|
    ensures IsAt(buf, from, buf[from..to])
  {
    forall k | 0 <= k < to - from ensures buf[from + k] == buf[from..to][k] {
    }
  }

  /**
    readLine (resp.go:49-62). The line ends at the first CR, and the byte
    after it is consumed as well, whatever it is; it need not be LF.
   */
  function ReadLine(buf: seq<byte>, pos: nat): (r: Scan<seq<byte>>)
    requires pos <= |buf|
    ensures r.Scanned? ==> r.n == |r.value| + 2 && pos + r.n <= |buf|
    ensures r.ScanFailed? ==> r == ScanFailed(0, EndOfInput)
  {
    var p := FirstCR(buf, pos);
    if p + 1 < |buf| then Scanned(buf[pos..p], p + 2 - pos)
    else ScanFailed(0, EndOfInput)
  }

  /**
    A line is read exactly when a CR occurs before the last byte; the line
    is the CR-free text before the first CR, and the CR follows it.
   */
  lemma {:induction false} ReadLineSpec(buf: seq<byte>, pos: nat)
    requires pos <= |buf|
    ensures var r := ReadLine(buf, pos);
      && (r.ScanFailed? <==> forall i :: pos <= i < |buf| - 1 ==> buf[i] != CR)
      && (r.Scanned? ==>
            && NoCR(r.value) && IsAt(buf, pos, r.value)
            && buf[pos + |r.value|] == CR)
  {
    FirstCRSpec(buf, pos);
    var p := FirstCR(buf, pos);
    if p + 1 < |buf| {
      SliceIsAt(buf, pos, p);
    }
  }

  /**
    readLine as written: one byte at a time, stopping once the byte before
    the last one read is a CR.
   */
  method ScanLine(buf: seq<byte>, pos: nat) returns (r: Scan<seq<byte>>)
    requires pos <= |buf|
    ensures r == ReadLine(buf, pos)
  {
    var line: seq<byte> := [];
    var n := 0;
    while true
      invariant pos + n <= |buf| && line == buf[pos..pos + n]
      invariant forall k :: pos <= k < pos + n - 1 ==> buf[k] != CR
      decreases |buf| - n
    {
      if pos + n == |buf| {
        FirstCRSpec(buf, pos);
        return ScanFailed(0, EndOfInput);
      }
      var b := buf[pos + n];
      n := n + 1;
      line := line + [b];
      if |line| >= 2 && line[|line| - 2] == CR {
        break;
      }
    }
    FirstCRAt(buf, pos, pos + n - 2);
    assert line[..|line| - 2] == buf[pos..pos + n - 2];
    return Scanned(line[..|line| - 2], n);
  }

  /**
    readInteger (resp.go:64-74): a line parsed as a signed 64-bit decimal.
    A line error reports 0 bytes; a parse error reports the line's bytes.
   */
  function ReadInteger(buf: seq<byte>, pos: nat): (r: Scan<int>)
    requires pos <= |buf|
    ensures r.Scanned? ==> pos + r.n <= |buf|
  {
    match ReadLine(buf, pos)
    case ScanFailed(_, fault) => ScanFailed(0, fault)
    case Scanned(line, n) =>
      match ParseInt(line)
      case None => ScanFailed(n, BadInteger)
      case Some(x) => Scanned(x, n)
  }

  /** The line holds a decimal numeral whose value is an int64. */
  predicate IsInt64Line(line: Scan<seq<byte>>) {
    line.Scanned? && IsDecimal(line.value) && MinInt64 <= DecimalValue(line.value) <= MaxInt64
  }

  /**
    readInteger succeeds exactly on a line holding a decimal numeral whose
    value is an int64, and returns that value and the line's length. It
    fails with end of input when there is no line, and with a bad integer,
    counting the line's bytes, when there is one.
   */
  lemma {:induction false} ReadIntegerSpec(buf: seq<byte>, pos: nat)
    requires pos <= |buf|
    ensures var line := ReadLine(buf, pos); var r := ReadInteger(buf, pos);
      && (line.ScanFailed? ==> r == ScanFailed(0, EndOfInput))
      && (line.Scanned? ==>
            if IsInt64Line(line) then r == Scanned(DecimalValue(line.value), line.n)
            else r == ScanFailed(line.n, BadInteger))
  {
    var line := ReadLine(buf, pos);
    if line.Scanned? {
      ParseIntSpec(line.value);
    }
  }

  /** Prefixes the elements `xs` to a decoding of the elements after them. */
  function Extend(xs: seq<Value>, d: Decode<seq<Value>>): Decode<seq<Value>> {
    match d
    case Done(ys, next) => Done(xs + ys, next)
    case Failed(ys, fault) => Failed(xs + ys, fault)
    case Panicked => Panicked
    case Undetermined => Undetermined
  }

  /**
    Read (resp.go:121-135): one tag byte, then an array, a bulk string, or,
    for any other tag, the zero value with nothing more consumed.
   */
  function Read(buf: seq<byte>, pos: nat): (r: Decode<Value>)
    requires pos <= |buf|
    decreases |buf| - pos, 0
    ensures r.Done? ==> pos < r.next <= |buf|
    ensures pos == |buf| ==> r == Failed(Other, EndOfInput)
    ensures pos < |buf| && buf[pos] != ARRAY && buf[pos] != BULK ==> r == Done(Other, pos + 1)
  {
    if pos == |buf| then Failed(Other, EndOfInput)
    else if buf[pos] == ARRAY then ReadArray(buf, pos + 1)
    else if buf[pos] == BULK then ReadBulk(buf, pos + 1)
    else Done(Other, pos + 1)
  }

  /**
    The element loop of readArray (resp.go:86-94): `count` values read one
    after the other. On the first failing element the loop stops; the
    elements read before it are the partial result.
   */
  function ReadElements(buf: seq<byte>, pos: nat, count: nat): (r: Decode<seq<Value>>)
    requires pos <= |buf|
    decreases |buf| - pos, 1, count
    ensures r.Done? ==> |r.value| == count && pos <= r.next <= |buf|
    ensures r.Failed? ==> |r.partial| < count
  {
    if count == 0 then Done([], pos)
    else
      match Read(buf, pos)
      case Done(v, mid) =>
        var tail := ReadElements(buf, mid, count - 1);
        if tail.Done? then Done([v] + tail.value, tail.next)
        else Extend([v], tail)
      case Failed(_, fault) => Failed([], fault)
      case Panicked => Panicked
      case Undetermined => Undetermined
  }

  /** `n` copies of the zero value: the slots of a fresh `make([]Value, n)`. */
  function ZeroValues(n: nat): (r: seq<Value>)
    ensures |r| == n && forall i :: 0 <= i < n ==> r[i] == Other
  {
    seq(n, _ => Other)
  }

  /**
    readArray (resp.go:76-97), after the `*` tag. A length error returns
    the zero value; a negative length, or one more than `MaxValues`, makes
    `make` panic (resp.go:85); an element error
    returns the array with the elements read so far and zero values after.
   */
  function ReadArray(buf: seq<byte>, pos: nat): (r: Decode<Value>)
    requires pos <= |buf|
    decreases |buf| - pos, 2
    ensures r.Done? ==> pos < r.next <= |buf|
  {
    match ReadInteger(buf, pos)
    case ScanFailed(_, fault) => Failed(Other, fault)
    case Scanned(count, n) =>
      if count < 0 || count > MaxValues then Panicked
      else
        match ReadElements(buf, pos + n, count)
        case Done(xs, next) => Done(Array(xs), next)
        case Failed(xs, fault) => Failed(Array(xs + ZeroValues(count - |xs|)), fault)
        case Panicked => Panicked
        case Undetermined => Undetermined
  }

  /**
    The outcomes of readArray in terms of its count line: no line or no
    int64 numeral gives the zero value with the error; a count below zero
    or above `MaxValues` panics; otherwise a decoded array has exactly `count` elements, and an
    array cut short by an element error still has `count` slots, the
    failing one and those after it holding the zero value.
   */
  lemma {:induction false} ReadArrayOutcome(buf: seq<byte>, pos: nat)
    requires pos <= |buf|
    ensures var line := ReadLine(buf, pos); var r := ReadArray(buf, pos);
      && (line.ScanFailed? ==> r == Failed(Other, EndOfInput))
      && (line.Scanned? && !IsInt64Line(line) ==> r == Failed(Other, BadInteger))
      && (IsInt64Line(line) && (DecimalValue(line.value) < 0 || DecimalValue(line.value) > MaxValues) ==>
            r == Panicked)
      && (r.Done? ==>
            && IsInt64Line(line)
            && r.value.Array? && |r.value.elems| == DecimalValue(line.value))
      && (r.Failed? && IsInt64Line(line) && 0 <= DecimalValue(line.value) <= MaxValues ==>
            && r.partial.Array? && 0 < |r.partial.elems| == DecimalValue(line.value)
            && r.partial.elems[|r.partial.elems| - 1] == Other)
  {
    ReadIntegerSpec(buf, pos);
  }

  /**
    The trailing `readLine` of readBulk (resp.go:116), whose result and
    error are both dropped: it consumes one line, or, when no line is left,
    everything that is left.
   */
  function SkipLine(buf: seq<byte>, pos: nat): (r: nat)
    requires pos <= |buf|
    ensures pos <= r <= |buf|
  {
    match ReadLine(buf, pos)
    case Scanned(_, n) => pos + n
    case ScanFailed(_, _) => |buf|
  }

  /**
    readBulk (resp.go:99-119), after the `$` tag. The payload is the next
    `len` bytes whatever they hold, followed by one dropped line. A negative
    length, or one more than `MaxBytes`, makes `make` panic (resp.go:107).
   */
  function ReadBulk(buf: seq<byte>, pos: nat): (r: Decode<Value>)
    requires pos <= |buf|
    ensures r.Done? ==> pos < r.next <= |buf|
  {
    match ReadInteger(buf, pos)
    case ScanFailed(_, fault) => Failed(Bulk([]), fault)
    case Scanned(len, n) =>
      var start := pos + n;
      if len < 0 || len > MaxBytes then Panicked
      else if |buf| - start < len then Undetermined
      else Done(Bulk(buf[start..start + len]), SkipLine(buf, start + len))
  }

  /**
    The outcomes of readBulk in terms of its length line: no line or no
    int64 numeral gives an empty bulk string with the error; a length below
    zero or above `MaxBytes` panics; too few bytes after the line is left open; otherwise the
    payload is the next `len` bytes and one more line is skipped.
   */
  lemma {:induction false} ReadBulkOutcome(buf: seq<byte>, pos: nat)
    requires pos <= |buf|
    ensures var line := ReadLine(buf, pos); var r := ReadBulk(buf, pos);
      && (line.ScanFailed? ==> r == Failed(Bulk([]), EndOfInput))
      && (line.Scanned? ==>
            if !IsInt64Line(line) then r == Failed(Bulk([]), BadInteger)
            else
              var len := DecimalValue(line.value);
              var start := pos + line.n;
              if len < 0 || len > MaxBytes then r == Panicked
              else if |buf| - start < len then r == Undetermined
              else (
                && r.Done? && r.value == Bulk(buf[start..start + len])
                && IsAt(buf, start, r.value.bytes) && r.next == SkipLine(buf, start + len)))
  {
    ReadIntegerSpec(buf, pos);
    var line := ReadLine(buf, pos);
    if IsInt64Line(line) && DecimalValue(line.value) >= 0 {
      var len := DecimalValue(line.value);
      var start := pos + line.n;
      if |buf| - start >= len {
        SliceIsAt(buf, start, start + len);
      }
    }
  }

  /** Every value the decoder returns is an array, a bulk string or the zero value, with lengths `make` allocates. */
  lemma {:induction false} ReadShape(buf: seq<byte>, pos: nat)
    requires pos <= |buf|
    ensures Read(buf, pos).Done? ==> DecoderShape(Read(buf, pos).value)
    decreases |buf| - pos, 0
  {
    if pos < |buf| {
      var count := ReadInteger(buf, pos + 1);
      ReadIntegerSpec(buf, pos + 1);
      if buf[pos] == ARRAY && count.Scanned? && count.value >= 0 {
        ReadElementsShape(buf, pos + 1 + count.n, count.value);
      }
    }
  }

  lemma {:induction false} ReadElementsShape(buf: seq<byte>, pos: nat, count: nat)
    requires pos <= |buf|
    ensures ReadElements(buf, pos, count).Done? ==> AllDecoderShape(ReadElements(buf, pos, count).value)
    decreases |buf| - pos, 1, count
  {
    if count > 0 {
      var head := Read(buf, pos);
      if head.Done? {
        ReadShape(buf, pos);
        ReadElementsShape(buf, head.next, count - 1);
        var tail := ReadElements(buf, head.next, count - 1);
        if tail.Done? {
          ShapePrepend(head.value, tail.value);
        }
      }
    }
  }

  lemma {:induction false} ShapePrepend(v: Value, xs: seq<Value>)
    requires DecoderShape(v) && AllDecoderShape(xs)
    ensures AllDecoderShape([v] + xs)
  {
    forall i | 0 <= i < |xs| + 1 ensures DecoderShape(([v] + xs)[i]) {
      if i > 0 { assert ([v] + xs)[i] == xs[i - 1]; }
    }
  }
}
