/**
 The RESP2 wire form of a value, as the Redis serialization protocol specification gives it
 ("Simple strings", "Simple errors", "Integers", "Bulk strings", "Arrays"). The client has no
 such encoder: it is the reference the decoder is proved against.
 */
module Resp {
  import opened Sequences
  import opened Bytes
  import opened Decimal
  import opened Values

  /** A type byte, the line behind it, its CRLF, and the body that the line announces. */
  function Framed(kind: byte, line: seq<byte>, body: seq<byte>): seq<byte> {
    [kind] + line + CRLF + body
  }

  function Encode(v: Value): (s: seq<byte>)
    ensures s != []
    decreases v, 1
  {
    match v
    case Nil => Framed(DOLLAR, ToString(-1), [])
    case Simple(text) => Framed(PLUS, text, [])
    case Error(what) => Framed(MINUS, what, [])
    case Integer(n) => Framed(COLON, ToString(n), [])
    case Bulk(bytes) => Framed(DOLLAR, ToString(|bytes|), bytes + CRLF)
    case Array(items) => Framed(STAR, ToString(|items|), EncodeAll(items))
  }

  function EncodeAll(items: seq<Value>): seq<byte>
    decreases items, 0
  {
    if items == [] then [] else Encode(items[0]) + EncodeAll(items[1..])
  }

  /** The wire form of each kind of value, character by character. */
  lemma WireForm(text: seq<byte>, n: int64, items: seq<Value>)
    ensures var end: seq<byte> := ['\r' as int, '\n' as int];
            && Encode(Simple(text)) == ['+' as int] + text + end
            && Encode(Error(text)) == ['-' as int] + text + end
            && Encode(Integer(n)) == [':' as int] + ToString(n) + end
            && Encode(Bulk(text)) == ['$' as int] + ToString(|text|) + end + text + end
            && Encode(Nil) == ['$' as int, '-' as int, '1' as int] + end
            && Encode(Array(items)) == ['*' as int] + ToString(|items|) + end + EncodeAll(items)
  {
    assert ToString(-1) == ['-' as int, '1' as int];
    assert Framed(PLUS, text, []) == [PLUS] + text + CRLF;
    assert Framed(MINUS, text, []) == [MINUS] + text + CRLF;
    assert Framed(COLON, ToString(n), []) == [COLON] + ToString(n) + CRLF;
    assert Framed(DOLLAR, ['-' as int, '1' as int], []) == [DOLLAR, '-' as int, '1' as int] + CRLF;
    Associate([DOLLAR] + ToString(|text|) + CRLF, text, CRLF);
  }

  /** What the protocol can carry: lines without CR, and lengths that a 64-bit header can state. */
  predicate Encodable(v: Value)
    decreases v, 1
  {
    match v
    case Simple(text) => CR !in text
    case Error(what) => CR !in what
    case Bulk(bytes) => FitsInt64(|bytes|)
    case Array(items) => FitsInt64(|items|) && AllEncodable(items)
    case _ => true
  }

  predicate AllEncodable(items: seq<Value>)
    decreases items, 0
  {
    items == [] || (Encodable(items[0]) && AllEncodable(items[1..]))
  }

  lemma {:induction false} EncodeAllConcat(a: seq<Value>, b: seq<Value>)
    ensures EncodeAll(a + b) == EncodeAll(a) + EncodeAll(b)
    ensures AllEncodable(a + b) <==> AllEncodable(a) && AllEncodable(b)
  {
    if a == [] {
      assert a + b == b;
    } else {
      assert (a + b)[1..] == a[1..] + b;
      EncodeAllConcat(a[1..], b);
    }
  }
}
