/**
  The encoder of resp.go: `Value.Marshal` and its helpers
  (resp.go:143-201). Every function returns the exact wire bytes.
 */
module RespMarshal {
  import opened Bytes
  import opened Strconv
  import opened RespValue

  /** The tag byte each encodable variant starts with. */
  function TagOf(v: Value): byte
    requires !v.Other?
  {
    match v
    case Array(_) => ARRAY
    case Bulk(_) => BULK
    case Null => BULK
    case SimpleString(_) => STRING
    case Error(_) => ERROR
  }

  /** True iff `s` ends with the CRLF terminator. */
  predicate EndsWithCRLF(s: seq<byte>) {
    |s| >= 2 && s[|s| - 2..] == CRLF
  }

  /**
    Marshal (resp.go:143-158): dispatch on the type. Only the zero-like
    `Other` values encode to nothing.
   */
  function Marshal(v: Value): (r: seq<byte>)
    decreases v, 2
    ensures r == [] <==> v.Other?
  {
    match v
    case Array(elems) => MarshalArray(elems)
    case Bulk(bytes) => MarshalBulk(bytes)
    case SimpleString(text) => MarshalString(text)
    case Null => MarshalNull()
    case Error(text) => MarshalError(text)
    case Other => []
  }

  /**
    marshalArray (resp.go:192-201): `*`, the element count, CRLF, then the
    elements' encodings.
   */
  function MarshalArray(elems: seq<Value>): (r: seq<byte>)
    decreases elems, 1
    ensures |r| == |Itoa(|elems|)| + 3 + |MarshalElems(elems)| && r[0] == ARRAY
  {
    [ARRAY] + Itoa(|elems|) + CRLF + MarshalElems(elems)
  }

  /** The loop of marshalArray (resp.go:197-199): the encodings of `elems` concatenated in order. */
  function MarshalElems(elems: seq<Value>): (r: seq<byte>)
    decreases elems, 0
    ensures |elems| == 0 ==> r == []
  {
    if |elems| == 0 then [] else Marshal(elems[0]) + MarshalElems(elems[1..])
  }

  /**
    marshalBulk (resp.go:160-169): `$`, the payload length, CRLF, the
    payload verbatim, CRLF.
   */
  function MarshalBulk(bytes: seq<byte>): (r: seq<byte>)
    ensures |r| == |Itoa(|bytes|)| + |bytes| + 5 && r[0] == BULK
  {
    [BULK] + Itoa(|bytes|) + CRLF + bytes + CRLF
  }

  /** marshalString (resp.go:184-190): `+`, the text, CRLF. */
  function MarshalString(text: seq<byte>): (r: seq<byte>)
    ensures |r| == |text| + 3 && r[0] == STRING
  {
    [STRING] + text + CRLF
  }

  /** marshallError (resp.go:171-178): `-`, the text, CRLF. */
  function MarshalError(text: seq<byte>): (r: seq<byte>)
    ensures |r| == |text| + 3 && r[0] == ERROR
  {
    [ERROR] + text + CRLF
  }

  /** marshallNull (resp.go:180-182): the five bytes `$-1\r\n`. */
  function MarshalNull(): (r: seq<byte>)
    ensures |r| == 5 && r[0] == BULK
  {
    [BULK, MINUS, ZERO + 1, CR, LF]
  }

  /**
    Every encoding of a value other than `Other` starts with the value's
    tag and ends with CRLF, the terminator of its last line.
   */
  lemma {:induction false} MarshalFraming(v: Value)
    ensures !v.Other? ==> 3 <= |Marshal(v)| && Marshal(v)[0] == TagOf(v) && EndsWithCRLF(Marshal(v))
    decreases v, 1
  {
    var r := Marshal(v);
    match v
    case Array(elems) =>
      var header := [ARRAY] + Itoa(|elems|) + CRLF;
      var tail := MarshalElems(elems);
      MarshalElemsFraming(elems);
      assert r == header + tail;
      if tail == [] {
        assert r == header;
        assert r[|r| - 2..] == CRLF;
      } else {
        assert r[|r| - 2..] == tail[|tail| - 2..];
      }
    case Bulk(bytes) =>
      assert r[|r| - 2..] == CRLF;
    case SimpleString(text) =>
      assert r[|r| - 2..] == CRLF;
    case Error(text) =>
      assert r[|r| - 2..] == CRLF;
    case Null =>
    case Other =>
  }

  /** The elements' encodings are empty exactly when every element is `Other`. */
  lemma {:induction false} MarshalElemsEmpty(elems: seq<Value>)
    ensures MarshalElems(elems) == [] <==> forall i :: 0 <= i < |elems| ==> elems[i].Other?
    decreases |elems|
  {
    if |elems| > 0 {
      MarshalElemsEmpty(elems[1..]);
      assert forall i :: 1 <= i < |elems| ==> elems[i] == elems[1..][i - 1];
    }
  }

  /** Non-empty encodings of elements end with CRLF. */
  lemma {:induction false} MarshalElemsFraming(elems: seq<Value>)
    ensures MarshalElems(elems) != [] ==> EndsWithCRLF(MarshalElems(elems))
    decreases elems, 0
  {
    if |elems| > 0 {
      var head := Marshal(elems[0]);
      var tail := MarshalElems(elems[1..]);
      MarshalFraming(elems[0]);
      MarshalElemsFraming(elems[1..]);
      if tail == [] {
        assert head + tail == head;
      } else {
        assert (head + tail)[|head + tail| - 2..] == tail[|tail| - 2..];
      }
    }
  }

  /** A single element is encoded on its own. */
  lemma {:induction false} MarshalElemsSingleton(v: Value)
    ensures MarshalElems([v]) == Marshal(v)
  {
    assert [v][1..] == [];
    assert Marshal(v) + [] == Marshal(v);
  }

  /** Encoding a concatenation of elements concatenates their encodings. */
  lemma {:induction false} MarshalElemsAppend(xs: seq<Value>, ys: seq<Value>)
    ensures MarshalElems(xs + ys) == MarshalElems(xs) + MarshalElems(ys)
    decreases |xs|
  {
    if |xs| > 0 {
      assert (xs + ys)[0] == xs[0];
      assert (xs + ys)[1..] == xs[1..] + ys;
      MarshalElemsAppend(xs[1..], ys);
    } else {
      assert xs + ys == ys;
    }
  }
}
