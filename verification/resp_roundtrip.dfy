/**
  How the decoder and the encoder of resp.go fit together: the decoder
  inverts the encoder on trees of arrays and bulk strings, reads array
  elements strictly in sequence, and shows its quirks on the encodings
  it does not understand.

  The lemmas speak of an encoding found at some position of the reader's
  bytes (`IsAt`), so that a value nested inside an array is handled like
  one at the start of the input.
 */
module RespRoundTrip {
  import opened Bytes
  import opened Strconv
  import opened RespValue
  import opened RespRead
  import opened RespMarshal

  /** Whatever occurs at `pos` starts with its first part, and its second part follows. */
  lemma {:induction false} IsAtSplit(buf: seq<byte>, pos: nat, a: seq<byte>, b: seq<byte>)
    requires IsAt(buf, pos, a + b)
    ensures IsAt(buf, pos, a) && IsAt(buf, pos + |a|, b)
  {
    forall k | 0 <= k < |a| ensures buf[pos + k] == a[k] {
      assert (a + b)[k] == a[k];
    }
    forall k | 0 <= k < |b| ensures buf[pos + |a| + k] == b[k] {
      assert (a + b)[|a| + k] == b[k];
    }
  }

  /** What occurs at `pos` is the slice of `buf` there. */
  lemma {:induction false} IsAtSlice(buf: seq<byte>, pos: nat, m: seq<byte>)
    requires IsAt(buf, pos, m)
    ensures buf[pos..pos + |m|] == m
  {
    forall k | 0 <= k < |m| ensures buf[pos..pos + |m|][k] == m[k] {
      assert buf[pos..pos + |m|][k] == buf[pos + k];
    }
  }

  /** `m` occurs in `a + m + rest` right after `a`. */
  lemma {:induction false} IsAtConcat(a: seq<byte>, m: seq<byte>, rest: seq<byte>)
    ensures IsAt(a + m + rest, |a|, m)
  {
    forall k | 0 <= k < |m| ensures (a + m + rest)[|a| + k] == m[k] {
      assert (a + m + rest)[|a| + k] == (a + m)[|a| + k];
    }
  }

  /** A line ends at its first CR and takes one more byte, LF or not. */
  lemma {:induction false} LineAt(buf: seq<byte>, pos: nat, line: seq<byte>, x: byte)
    requires NoCR(line) && IsAt(buf, pos, line + [CR, x])
    ensures ReadLine(buf, pos) == Scanned(line, |line| + 2)
  {
    IsAtSplit(buf, pos, line, [CR, x]);
    assert buf[pos + |line| + 0] == [CR, x][0];
    forall k | pos <= k < pos + |line| ensures buf[k] != CR {
      assert buf[pos + (k - pos)] == line[k - pos];
    }
    FirstCRAt(buf, pos, pos + |line|);
    IsAtSlice(buf, pos, line);
  }

  /** The line skipped after a bulk payload is any CR-free text, a CR and one more byte. */
  lemma {:induction false} SkipLineAt(buf: seq<byte>, pos: nat, line: seq<byte>, x: byte)
    requires NoCR(line) && IsAt(buf, pos, line + [CR, x])
    ensures SkipLine(buf, pos) == pos + |line| + 2
  {
    LineAt(buf, pos, line, x);
  }

  /** readInteger on one line: the numeral's value if it is an int64, a bad integer otherwise. */
  lemma {:induction false} IntegerAt(buf: seq<byte>, pos: nat, line: seq<byte>, x: byte)
    requires NoCR(line) && IsAt(buf, pos, line + [CR, x])
    ensures ReadInteger(buf, pos)
         == if IsDecimal(line) && MinInt64 <= DecimalValue(line) <= MaxInt64
            then Scanned(DecimalValue(line), |line| + 2)
            else ScanFailed(|line| + 2, BadInteger)
  {
    LineAt(buf, pos, line, x);
    ReadIntegerSpec(buf, pos);
  }

  /** readInteger reads back every length the encoder prints. */
  lemma {:induction false} ItoaAt(n: nat, buf: seq<byte>, pos: nat)
    requires n <= MaxInt64 && IsAt(buf, pos, Itoa(n) + CRLF)
    ensures ReadInteger(buf, pos) == Scanned(n, |Itoa(n)| + 2)
  {
    ItoaSpec(n);
    assert Itoa(n) + CRLF == Itoa(n) + [CR, LF];
    LineAt(buf, pos, Itoa(n), LF);
    ParseIntItoa(n);
  }

  /** A `$` header announcing the payload's length, then the payload: one bulk string. */
  lemma {:induction false} BulkAt(payload: seq<byte>, buf: seq<byte>, pos: nat)
    requires |payload| <= MaxBytes
    requires IsAt(buf, pos, [BULK] + Itoa(|payload|) + CRLF + payload)
    ensures var start := pos + |Itoa(|payload|)| + 3;
      Read(buf, pos) == Done(Bulk(payload), SkipLine(buf, start + |payload|))
  {
    var header := [BULK] + Itoa(|payload|) + CRLF;
    IsAtSplit(buf, pos, header, payload);
    assert header == [BULK] + (Itoa(|payload|) + CRLF);
    IsAtSplit(buf, pos, [BULK], Itoa(|payload|) + CRLF);
    assert buf[pos + 0] == [BULK][0];
    ItoaAt(|payload|, buf, pos + 1);
    IsAtSlice(buf, pos + |header|, payload);
  }

  /** A `*` header announcing `count`, then `count` decodable elements: one array. */
  lemma {:induction false} ArrayAt(count: nat, buf: seq<byte>, pos: nat, elems: seq<Value>, next: nat)
    requires count <= MaxValues
    requires IsAt(buf, pos, [ARRAY] + Itoa(count) + CRLF)
    requires ReadElements(buf, pos + |Itoa(count)| + 3, count) == Done(elems, next)
    ensures Read(buf, pos) == Done(Array(elems), next)
  {
    assert [ARRAY] + Itoa(count) + CRLF == [ARRAY] + (Itoa(count) + CRLF);
    IsAtSplit(buf, pos, [ARRAY], Itoa(count) + CRLF);
    assert buf[pos + 0] == [ARRAY][0];
    ItoaAt(count, buf, pos + 1);
  }

  /**
    A bulk string is its header, the payload, and then any line at all:
    the decoder drops the bytes up to the first CR after the payload and
    the byte after that CR.
   */
  lemma {:induction false} BulkTrailerIsAnyLine(payload: seq<byte>, junk: seq<byte>, x: byte, buf: seq<byte>, pos: nat)
    requires |payload| <= MaxBytes && NoCR(junk)
    requires IsAt(buf, pos, [BULK] + Itoa(|payload|) + CRLF + payload + (junk + [CR, x]))
    ensures Read(buf, pos) == Done(Bulk(payload), pos + |Itoa(|payload|)| + |payload| + |junk| + 5)
  {
    var framed := [BULK] + Itoa(|payload|) + CRLF + payload;
    IsAtSplit(buf, pos, framed, junk + [CR, x]);
    BulkAt(payload, buf, pos);
    SkipLineAt(buf, pos + |framed|, junk, x);
  }

  /**
    The error of the trailing line read is ignored: when no line follows
    the payload, the bulk string still decodes and the input is used up.
   */
  lemma {:induction false} BulkTrailerMayBeMissing(payload: seq<byte>, buf: seq<byte>, pos: nat)
    requires |payload| <= MaxBytes
    requires IsAt(buf, pos, [BULK] + Itoa(|payload|) + CRLF + payload)
    requires forall i :: pos + |Itoa(|payload|)| + 3 + |payload| <= i < |buf| - 1 ==> buf[i] != CR
    ensures Read(buf, pos) == Done(Bulk(payload), |buf|)
  {
    BulkAt(payload, buf, pos);
    ReadLineSpec(buf, pos + |Itoa(|payload|)| + 3 + |payload|);
  }

  /** Decoding the encoding of an array/bulk tree gives the tree back and stops right after it. */
  lemma {:induction false} RoundTripAt(v: Value, buf: seq<byte>, pos: nat)
    requires BulkArrayTree(v) && IsAt(buf, pos, Marshal(v))
    ensures Read(buf, pos) == Done(v, pos + |Marshal(v)|)
    decreases v, 2
  {
    match v
    case Bulk(payload) => BulkRoundTripAt(payload, buf, pos);
    case Array(elems) => ArrayRoundTripAt(v, buf, pos);
  }

  /** An array of trees reads back from its encoding. */
  lemma {:induction false} ArrayRoundTripAt(v: Value, buf: seq<byte>, pos: nat)
    requires v.Array? && BulkArrayTree(v) && IsAt(buf, pos, MarshalArray(v.elems))
    ensures Read(buf, pos) == Done(v, pos + |MarshalArray(v.elems)|)
    decreases v, 1
  {
    var elems := v.elems;
    var body := pos + |Itoa(|elems|)| + 3;
    ArrayHeaderAt(elems, buf, pos);
    RoundTripElemsAt(elems, buf, body);
    ArrayAt(|elems|, buf, pos, elems, body + |MarshalElems(elems)|);
  }

  /** A bulk string reads back from its encoding. */
  lemma {:induction false} BulkRoundTripAt(payload: seq<byte>, buf: seq<byte>, pos: nat)
    requires |payload| <= MaxBytes && IsAt(buf, pos, MarshalBulk(payload))
    ensures Read(buf, pos) == Done(Bulk(payload), pos + |MarshalBulk(payload)|)
  {
    var framed := [BULK] + Itoa(|payload|) + CRLF + payload;
    assert MarshalBulk(payload) == framed + ([] + [CR, LF]);
    IsAtSplit(buf, pos, framed, [] + [CR, LF]);
    BulkAt(payload, buf, pos);
    SkipLineAt(buf, pos + |framed|, [], LF);
  }

  /** An array's encoding is its header followed by the elements' encodings. */
  lemma {:induction false} ArrayHeaderAt(elems: seq<Value>, buf: seq<byte>, pos: nat)
    requires IsAt(buf, pos, MarshalArray(elems))
    ensures IsAt(buf, pos, [ARRAY] + Itoa(|elems|) + CRLF)
    ensures IsAt(buf, pos + |Itoa(|elems|)| + 3, MarshalElems(elems))
  {
    IsAtSplit(buf, pos, [ARRAY] + Itoa(|elems|) + CRLF, MarshalElems(elems));
  }

  /** The element loop reads back the concatenated encodings of a sequence of trees. */
  lemma {:induction false} RoundTripElemsAt(elems: seq<Value>, buf: seq<byte>, pos: nat)
    requires forall i :: 0 <= i < |elems| ==> BulkArrayTree(elems[i])
    requires IsAt(buf, pos, MarshalElems(elems))
    ensures ReadElements(buf, pos, |elems|) == Done(elems, pos + |MarshalElems(elems)|)
    decreases elems, 0
  {
    if |elems| > 0 {
      var head := Marshal(elems[0]);
      var tail := MarshalElems(elems[1..]);
      IsAtSplit(buf, pos, head, tail);
      RoundTripAt(elems[0], buf, pos);
      TreesTail(elems);
      RoundTripElemsAt(elems[1..], buf, pos + |head|);
      ReadElementsCons(buf, pos, elems, pos + |head|, pos + |head| + |tail|);
    }
  }

  /**
    The round trip on a whole input: the encoding of an array/bulk tree,
    followed by anything, decodes to the tree and leaves exactly what
    followed it.
   */
  lemma {:induction false} RoundTrip(v: Value, rest: seq<byte>)
    requires BulkArrayTree(v)
    ensures Read(Marshal(v) + rest, 0) == Done(v, |Marshal(v)|)
    ensures (Marshal(v) + rest)[|Marshal(v)|..] == rest
  {
    IsAtConcat([], Marshal(v), rest);
    assert [] + Marshal(v) + rest == Marshal(v) + rest;
    RoundTripAt(v, Marshal(v) + rest, 0);
  }

  lemma {:induction false} TreesTail(elems: seq<Value>)
    requires |elems| > 0 && forall i :: 0 <= i < |elems| ==> BulkArrayTree(elems[i])
    ensures forall i :: 0 <= i < |elems[1..]| ==> BulkArrayTree(elems[1..][i])
  {
    assert forall i :: 0 <= i < |elems[1..]| ==> elems[1..][i] == elems[i + 1];
  }

  /** A decoded first element and the decoded others make the decoded sequence. */
  lemma {:induction false} ReadElementsCons(buf: seq<byte>, pos: nat, vs: seq<Value>, mid: nat, next: nat)
    requires pos <= |buf| && 0 < |vs|
    requires Read(buf, pos) == Done(vs[0], mid)
    requires ReadElements(buf, mid, |vs| - 1) == Done(vs[1..], next)
    ensures ReadElements(buf, pos, |vs|) == Done(vs, next)
  {
    assert [vs[0]] + vs[1..] == vs;
  }

  lemma {:induction false} ReadElementsStep(buf: seq<byte>, pos: nat, count: nat)
    requires pos <= |buf| && 0 < count && Read(buf, pos).Done?
    ensures ReadElements(buf, pos, count)
         == Extend([Read(buf, pos).value], ReadElements(buf, Read(buf, pos).next, count - 1))
  {
  }

  /** What is left to read after `d`, if `d` succeeded, is `count` more elements. */
  function Then(buf: seq<byte>, d: Decode<seq<Value>>, count: nat): Decode<seq<Value>>
    requires d.Done? ==> d.next <= |buf|
  {
    match d
    case Done(xs, mid) => Extend(xs, ReadElements(buf, mid, count))
    case _ => d
  }

  lemma {:induction false} ExtendExtend(xs: seq<Value>, ys: seq<Value>, d: Decode<seq<Value>>)
    ensures Extend(xs, Extend(ys, d)) == Extend(xs + ys, d)
  {
    match d
    case Done(zs, _) => assert xs + (ys + zs) == (xs + ys) + zs;
    case Failed(zs, _) => assert xs + (ys + zs) == (xs + ys) + zs;
    case _ =>
  }

  lemma {:induction false} ExtendEmpty(d: Decode<seq<Value>>)
    ensures Extend([], d) == d
  {
    match d
    case Done(zs, _) => assert [] + zs == zs;
    case Failed(zs, _) => assert [] + zs == zs;
    case _ =>
  }

  /** Prefixing a decoded head commutes with reading more elements afterwards. */
  lemma {:induction false} ThenExtend(buf: seq<byte>, v: Value, d: Decode<seq<Value>>, b: nat)
    requires d.Done? ==> d.next <= |buf|
    ensures Then(buf, Extend([v], d), b) == Extend([v], Then(buf, d, b))
  {
    if d.Done? {
      ExtendExtend([v], d.value, ReadElements(buf, d.next, b));
    }
  }

  /**
    Reading `a + b` elements is reading `a` elements and then `b` more from
    where they stopped; a failure among the first `a` ends the whole read.
   */
  lemma {:induction false} ElemsSplit(buf: seq<byte>, pos: nat, a: nat, b: nat)
    requires pos <= |buf|
    ensures ReadElements(buf, pos, a + b) == Then(buf, ReadElements(buf, pos, a), b)
    decreases a
  {
    if a == 0 {
      ExtendEmpty(ReadElements(buf, pos, b));
    } else if Read(buf, pos).Done? {
      var head := Read(buf, pos);
      var n: nat := a - 1;
      var d := ReadElements(buf, head.next, n);
      calc {
        ReadElements(buf, pos, a + b);
        { ReadElementsStep(buf, pos, a + b); assert a + b - 1 == n + b; }
        Extend([head.value], ReadElements(buf, head.next, n + b));
        { ElemsSplit(buf, head.next, n, b); }
        Extend([head.value], Then(buf, d, b));
        { ThenExtend(buf, head.value, d, b); }
        Then(buf, Extend([head.value], d), b);
        { ReadElementsStep(buf, pos, a); }
        Then(buf, ReadElements(buf, pos, a), b);
      }
    } else {
      ElemsHeadFails(buf, pos, a);
      ElemsHeadFails(buf, pos, a + b);
    }
  }

  /** When the first element does not decode, neither does the loop, whatever the count. */
  lemma {:induction false} ElemsHeadFails(buf: seq<byte>, pos: nat, count: nat)
    requires pos <= |buf| && 0 < count && !Read(buf, pos).Done?
    ensures ReadElements(buf, pos, count) == ReadElements(buf, pos, 1)
  {
  }

  /**
    A failed element read stops at the first element that fails: the
    elements before it decode, the next one fails with the same error.
   */
  lemma {:induction false} ElemsStopAtFirstError(buf: seq<byte>, pos: nat, count: nat)
    requires pos <= |buf| && ReadElements(buf, pos, count).Failed?
    ensures var r := ReadElements(buf, pos, count);
      var before := ReadElements(buf, pos, |r.partial|);
      && before.Done? && before.value == r.partial
      && Read(buf, before.next).Failed? && Read(buf, before.next).fault == r.fault
    decreases count
  {
    var r := ReadElements(buf, pos, count);
    var head := Read(buf, pos);
    if head.Done? {
      ReadElementsStep(buf, pos, count);
      var tail := ReadElements(buf, head.next, count - 1);
      ElemsStopAtFirstError(buf, head.next, count - 1);
      ReadElementsStep(buf, pos, |tail.partial| + 1);
      assert r.partial == [head.value] + tail.partial;
    }
  }

  /** From `pos`, the element loop decodes exactly `xs`, and the next element fails with `fault`. */
  predicate DecodesThenFails(buf: seq<byte>, pos: nat, xs: seq<Value>, fault: Fault)
    requires pos <= |buf|
  {
    var before := ReadElements(buf, pos, |xs|);
    && before.Done? && before.value == xs
    && Read(buf, before.next).Failed? && Read(buf, before.next).fault == fault
  }

  /**
    An array cut short by an element error (resp.go:85-90) still has the
    announced number of slots: for some `k` below that count, its first
    `k` slots are the elements that decoded one after another from the
    start of the body, the element after them failed with the array's
    error, and every slot from `k` on keeps the zero value `make` put there.
   */
  lemma {:induction false} ReadArrayFailedLayout(buf: seq<byte>, pos: nat)
    requires pos <= |buf| && ReadArray(buf, pos).Failed?
    ensures var line := ReadLine(buf, pos); var r := ReadArray(buf, pos);
      IsInt64Line(line) && 0 <= DecimalValue(line.value) <= MaxValues ==>
        var count := DecimalValue(line.value);
        var start := pos + line.n;
        && r.partial.Array? && |r.partial.elems| == count
        && exists k :: 0 <= k < count
             && DecodesThenFails(buf, start, r.partial.elems[..k], r.fault)
             && forall i :: k <= i < count ==> r.partial.elems[i] == Other
  {
    ReadIntegerSpec(buf, pos);
    var line := ReadLine(buf, pos);
    var r := ReadArray(buf, pos);
    if IsInt64Line(line) && 0 <= DecimalValue(line.value) <= MaxValues {
      var count := DecimalValue(line.value);
      var start := pos + line.n;
      var e := ReadElements(buf, start, count);
      ElemsStopAtFirstError(buf, start, count);
      var k := |e.partial|;
      assert r.partial.elems == e.partial + ZeroValues(count - k);
      assert r.partial.elems[..k] == e.partial;
      assert DecodesThenFails(buf, start, r.partial.elems[..k], r.fault);
    }
  }

  /** The length line `-1` reads as the integer -1. */
  lemma {:induction false} MinusOneAt(buf: seq<byte>, pos: nat)
    requires IsAt(buf, pos, [MINUS, ZERO + 1, CR, LF])
    ensures ReadInteger(buf, pos) == Scanned(-1, 4)
  {
    var minusOne: seq<byte> := [MINUS, ZERO + 1];
    assert DigitsValue(minusOne[1..]) == 1 by {
      assert minusOne[1..][..0] == [];
    }
    assert !IsDigit(minusOne[0]) && AllDigits(minusOne[1..]) && NoCR(minusOne);
    assert minusOne + [CR, LF] == [MINUS, ZERO + 1, CR, LF];
    IntegerAt(buf, pos, minusOne, LF);
  }

  /**
    The encoder writes a null as `$-1\r\n`, but the decoder hands the length
    -1 to `make`, which panics; the same holds for a null array `*-1\r\n`.
   */
  lemma {:induction false} NullMarkersPanic(buf: seq<byte>, pos: nat)
    requires pos <= |buf|
    ensures IsAt(buf, pos, Marshal(Null)) ==> Read(buf, pos) == Panicked
    ensures IsAt(buf, pos, [ARRAY, MINUS, ZERO + 1, CR, LF]) ==> Read(buf, pos) == Panicked
  {
    var line: seq<byte> := [MINUS, ZERO + 1, CR, LF];
    assert Marshal(Null) == [BULK] + line;
    assert [ARRAY, MINUS, ZERO + 1, CR, LF] == [ARRAY] + line;
    if IsAt(buf, pos, Marshal(Null)) {
      IsAtSplit(buf, pos, [BULK], line);
      assert buf[pos + 0] == [BULK][0];
      MinusOneAt(buf, pos + 1);
    }
    if IsAt(buf, pos, [ARRAY] + line) {
      IsAtSplit(buf, pos, [ARRAY], line);
      assert buf[pos + 0] == [ARRAY][0];
      MinusOneAt(buf, pos + 1);
    }
  }

  /**
    The decoder has no case for `+` or `-`: it returns the zero value after
    the tag byte. The line reader alone recovers the text.
   */
  lemma {:induction false} StatusLineNotDecoded(v: Value, buf: seq<byte>, pos: nat)
    requires (v.SimpleString? || v.Error?) && IsAt(buf, pos, Marshal(v))
    ensures Read(buf, pos) == Done(Other, pos + 1)
    ensures NoCR(v.text) ==> ReadLine(buf, pos + 1) == Scanned(v.text, |v.text| + 2)
  {
    var tag := if v.SimpleString? then STRING else ERROR;
    assert Marshal(v) == [tag] + (v.text + [CR, LF]);
    IsAtSplit(buf, pos, [tag], v.text + [CR, LF]);
    assert buf[pos + 0] == [tag][0];
    if NoCR(v.text) {
      LineAt(buf, pos + 1, v.text, LF);
    }
  }

  /** The encoder writes an array holding an array holding "a" as `*1\r\n*1\r\n$1\r\na\r\n`. */
  lemma {:induction false} NestedArrayEncoding()
    ensures Marshal(Array([Array([Bulk([97])])]))
         == [ARRAY, 49, CR, LF, ARRAY, 49, CR, LF, BULK, 49, CR, LF, 97, CR, LF]
  {
    var a: seq<byte> := [BULK, 49, CR, LF, 97, CR, LF];
    var b: seq<byte> := [ARRAY, 49, CR, LF] + a;
    assert Itoa(1) == [49];
    assert Marshal(Bulk([97])) == a;
    MarshalElemsSingleton(Bulk([97]));
    assert Marshal(Array([Bulk([97])])) == b;
    MarshalElemsSingleton(Array([Bulk([97])]));
  }

  /** `*1\r\n*1\r\n$1\r\na\r\n` decodes to an array holding an array holding "a". */
  lemma {:induction false} NestedArrayExample()
    ensures Read([ARRAY, 49, CR, LF, ARRAY, 49, CR, LF, BULK, 49, CR, LF, 97, CR, LF], 0)
         == Done(Array([Array([Bulk([97])])]), 15)
  {
    var v := Array([Array([Bulk([97])])]);
    NestedArrayEncoding();
    assert BulkArrayTree(Array([Bulk([97])]));
    RoundTrip(v, []);
    assert Marshal(v) + [] == Marshal(v);
  }

  /** `$0\r\n\r\n` is the empty bulk string. */
  lemma {:induction false} EmptyBulkExample()
    ensures Read([BULK, ZERO, CR, LF, CR, LF], 0) == Done(Bulk([]), 6)
  {
    assert Itoa(0) == [ZERO];
    RoundTrip(Bulk([]), []);
    assert Marshal(Bulk([])) + [] == [BULK, ZERO, CR, LF, CR, LF];
  }

  /** `$-1\r\n`, the encoder's null, panics instead of decoding. */
  lemma {:induction false} NullBulkExample()
    ensures Read([BULK, MINUS, ZERO + 1, CR, LF], 0) == Panicked
  {
    var input: seq<byte> := [BULK, MINUS, ZERO + 1, CR, LF];
    IsAtConcat([], input, []);
    assert [] + input + [] == input;
    NullMarkersPanic(input, 0);
  }

  /** `$abc\r\n` fails on its length line and returns an empty bulk string with the error. */
  lemma {:induction false} MalformedLengthExample()
    ensures Read([BULK, 97, 98, 99, CR, LF], 0) == Failed(Bulk([]), BadInteger)
  {
    var input: seq<byte> := [BULK, 97, 98, 99, CR, LF];
    var line: seq<byte> := [97, 98, 99];
    assert input == [BULK] + (line + [CR, LF]) + [];
    IsAtConcat([BULK], line + [CR, LF], []);
    IntegerAt(input, 1, line, LF);
  }

  /** `$5\r\nhel`: fewer payload bytes than announced, an outcome the model leaves open. */
  lemma {:induction false} TruncatedPayloadExample()
    ensures Read([BULK, ZERO + 5, CR, LF, 104, 101, 108], 0) == Undetermined
  {
    var input: seq<byte> := [BULK, ZERO + 5, CR, LF, 104, 101, 108];
    var line: seq<byte> := [ZERO + 5];
    assert DigitsValue(line) == 5 by {
      assert line[..0] == [];
    }
    assert input == [BULK] + (line + [CR, LF]) + [104, 101, 108];
    IsAtConcat([BULK], line + [CR, LF], [104, 101, 108]);
    IntegerAt(input, 1, line, LF);
  }
}
