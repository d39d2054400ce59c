/** The replies of a Redis server as values, and the outcomes of decoding them. */
module Values {
  import opened Bytes
  import opened Decimal

  datatype Value =
    | Nil
    | Simple(text: seq<byte>)
    | Error(what: seq<byte>)
    | Integer(n: int64)
    | Bulk(bytes: seq<byte>)
    | Array(items: seq<Value>)

  /** The error codes a reply can carry. */
  datatype ErrorCode = NoError | ServerError | Eof | OutOfRange | MalformedMessage | WriteError | ReadError

  /** A reply object's two fields, as a value. */
  datatype ReplyData = ReplyData(value: Value, error: ErrorCode)

  datatype Option<+T> = None | Some(value: T)

  predicate ErrorFree(v: Value)
    decreases v, 1
  {
    match v
    case Error(_) => false
    case Array(items) => AllErrorFree(items)
    case _ => true
  }

  predicate AllErrorFree(items: seq<Value>)
    decreases items, 0
  {
    items == [] || (ErrorFree(items[0]) && AllErrorFree(items[1..]))
  }

  /** The number of nodes of a tree. */
  function Nodes(v: Value): (n: nat)
    ensures n >= 1
    decreases v, 1
  {
    match v
    case Array(items) => 1 + NodesIn(items)
    case _ => 1
  }

  function NodesIn(items: seq<Value>): nat
    decreases items, 0
  {
    if items == [] then 0 else Nodes(items[0]) + NodesIn(items[1..])
  }

  lemma {:induction false} NodesInConcat(a: seq<Value>, b: seq<Value>)
    ensures NodesIn(a + b) == NodesIn(a) + NodesIn(b)
  {
    if a == [] {
      assert a + b == b;
    } else {
      assert (a + b)[1..] == a[1..] + b;
      NodesInConcat(a[1..], b);
    }
  }
}
