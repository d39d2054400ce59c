/** redis/client.cpp: sending commands over a connection and decoding what comes back. */
module Client {
  import opened Sequences
  import opened Bytes
  import opened Values
  import opened Resp
  import opened Reply
  import opened ReplyLaws
  import opened Command

  const READ_BUFFER_SIZE: nat := 4096

  // ---- The decode loop as a function ----

  /** The replies a buffer decodes to; or how the loop over it fails. */
  datatype Stream = Replies(list: seq<ReplyData>) | Broken(what: Exception) | StreamOverran

  function Prepend(reply: ReplyData, others: Stream): Stream {
    if others.Replies? then Replies([reply] + others.list) else others
  }

  function DecodeAll(s: seq<byte>): Stream
    decreases |s|
  {
    if s == [] then Replies([])
    else
      match Parse(s)
      case Parsed(value, error, rest) => Prepend(ReplyData(value, error), DecodeAll(rest))
      case Threw(what) => Broken(what)
      case Overran => StreamOverran
  }

  // ---- What the loop makes of a sequence of encoded replies ----

  /**
   The replies that come out when `vs` went in: an array with an error inside yields one nil
   reply, and its unread siblings then surface as replies of their own.
   */
  function Surfaced(vs: seq<Value>): seq<ReplyData>
    decreases NodesIn(vs)
  {
    if vs == [] then []
    else
      var next := Remaining(vs[0]) + vs[1..];
      NodesInConcat(Remaining(vs[0]), vs[1..]);
      [Decoded(vs[0])] + Surfaced(next)
  }

  lemma {:induction false} PipelineDecodes(vs: seq<Value>)
    requires AllEncodable(vs)
    ensures DecodeAll(EncodeAll(vs)) == Replies(Surfaced(vs))
    decreases NodesIn(vs)
  {
    if vs != [] {
      var v, others := vs[0], vs[1..];
      var next := Remaining(v) + others;
      NodesInConcat(Remaining(v), others);
      EncodeAllConcat(Remaining(v), others);
      ParseEncoded(v, EncodeAll(others));
      PipelineDecodes(next);
    }
  }

  /** An error somewhere inside an array; a reply that is itself an error has none. */
  predicate HasNestedError(v: Value) { v.Array? && !ErrorFree(v) }

  /** The reply a caller is promised for `v`: the value sent, marked when it is an error. */
  function Intended(v: Value): ReplyData { ReplyData(v, if v.Error? then ServerError else NoError) }

  function AllIntended(vs: seq<Value>): seq<ReplyData> {
    if vs == [] then [] else [Intended(vs[0])] + AllIntended(vs[1..])
  }

  /**
   Pipeline framing, exactly: the loop over the concatenated encodings ends at the end of the
   buffer, and the replies are the ones sent, in order, if and only if none of them has an error
   nested inside an array.
   */
  lemma {:induction false} PipelineFraming(vs: seq<Value>)
    requires AllEncodable(vs)
    ensures DecodeAll(EncodeAll(vs)).Replies?
    ensures DecodeAll(EncodeAll(vs)) == Replies(AllIntended(vs)) <==> forall v :: v in vs ==> !HasNestedError(v)
  {
    PipelineDecodes(vs);
    SurfacedIntended(vs);
  }

  lemma {:induction false} SurfacedIntended(vs: seq<Value>)
    requires AllEncodable(vs)
    ensures Surfaced(vs) == AllIntended(vs) <==> forall v :: v in vs ==> !HasNestedError(v)
  {
    if vs != [] {
      var v, others := vs[0], vs[1..];
      assert vs == [v] + others;
      if HasNestedError(v) {
        assert v in vs;
        assert Surfaced(vs)[0] != AllIntended(vs)[0];
      } else {
        ParseEncoded(v, []);
        assert Remaining(v) + others == others;
        SurfacedIntended(others);
        assert Surfaced(vs) == [Decoded(v)] + Surfaced(others);
        assert Surfaced(vs)[1..] == Surfaced(others) && AllIntended(vs)[1..] == AllIntended(others);
      }
    }
  }

  /** Two lists of replies without nested errors that have the same bytes are the same list. */
  lemma {:induction false} EncodingsAreUnique(a: seq<Value>, b: seq<Value>)
    requires AllEncodable(a) && AllEncodable(b)
    requires forall v :: v in a + b ==> !HasNestedError(v)
    requires EncodeAll(a) == EncodeAll(b)
    ensures a == b
  {
    assert forall v :: v in a ==> v in a + b;
    assert forall v :: v in b ==> v in a + b;
    PipelineFraming(a);
    PipelineFraming(b);
    IntendedIsInjective(a, b);
  }

  lemma {:induction false} IntendedIsInjective(a: seq<Value>, b: seq<Value>)
    requires AllIntended(a) == AllIntended(b)
    ensures a == b
  {
    if a != [] && b != [] {
      assert AllIntended(a)[0].value == a[0] && AllIntended(b)[0].value == b[0];
      assert AllIntended(a)[1..] == AllIntended(a[1..]) && AllIntended(b)[1..] == AllIntended(b[1..]);
      IntendedIsInjective(a[1..], b[1..]);
    }
  }

  /**
   A pipeline never yields fewer replies than were sent, and it yields as many exactly when every
   reply with an error is left with no sibling unread.
   */
  lemma {:induction false} ReplyCount(vs: seq<Value>)
    ensures |Surfaced(vs)| >= |vs|
    ensures |Surfaced(vs)| == |vs| <==> forall v :: v in vs ==> Remaining(v) == []
    decreases NodesIn(vs)
  {
    if vs != [] {
      var v, others := vs[0], vs[1..];
      assert vs == [v] + others;
      NodesInConcat(Remaining(v), others);
      ReplyCount(Remaining(v) + others);
      if Remaining(v) == [] {
        assert Remaining(v) + others == others;
      } else {
        assert v in vs;
      }
    }
  }

  function ErrorReplies(replies: seq<ReplyData>): nat {
    if replies == [] then 0
    else (if replies[0].error == ServerError then 1 else 0) + ErrorReplies(replies[1..])
  }

  /** No error is swallowed: every error of every tree surfaces as one reply marked as an error. */
  lemma {:induction false} EveryErrorSurfaces(vs: seq<Value>)
    ensures ErrorReplies(Surfaced(vs)) == |ErrorsIn(vs)|
    decreases NodesIn(vs)
  {
    if vs != [] {
      var v, others := vs[0], vs[1..];
      NodesInConcat(Remaining(v), others);
      ErrorsConserved(v);
      ErrorsInConcat(Remaining(v), others);
      EveryErrorSurfaces(Remaining(v) + others);
      assert Surfaced(vs)[1..] == Surfaced(Remaining(v) + others);
    }
  }

  /** A concrete pipeline of one reply that comes back as two. */
  lemma NestedErrorDesynchronises()
    ensures var sent := [Array([Error([69]), Integer(7)])];
            AllEncodable(sent) &&
            DecodeAll(EncodeAll(sent)) == Replies([ReplyData(Nil, ServerError), ReplyData(Integer(7), NoError)])
  {
    var v := Array([Error([69]), Integer(7)]);
    var others: seq<Value> := [Integer(7)];
    assert others[1..] == [] && v.items[1..] == others;
    assert AllEncodable(others) && Encodable(v);
    PipelineDecodes([v]);
    assert Remaining(v) + [v][1..] == [Integer(7)];
    assert Remaining(Integer(7)) + [Integer(7)][1..] == [];
    assert Surfaced([Integer(7)]) == [Decoded(Integer(7))];
  }

  // ---- The send buffer ----

  function SendBuffer(commands: seq<Arguments>): seq<byte> {
    if commands == [] then [] else Serialize(commands[0]) + SendBuffer(commands[1..])
  }

  function Requests(commands: seq<Arguments>): seq<Value> {
    if commands == [] then [] else [Array(Bulks(commands[0]))] + Requests(commands[1..])
  }

  predicate Framable(commands: seq<Arguments>) {
    forall arguments :: arguments in commands ==> |arguments| >= 2 && Sendable(arguments)
  }

  lemma {:induction false} SendBufferIsEncoding(commands: seq<Arguments>)
    requires Framable(commands)
    ensures SendBuffer(commands) == EncodeAll(Requests(commands))
    ensures AllEncodable(Requests(commands))
    ensures forall v :: v in Requests(commands) ==> !HasNestedError(v)
  {
    if commands != [] {
      assert commands[0] in commands;
      SerializeIsEncoding(commands[0]);
      assert forall arguments :: arguments in commands[1..] ==> arguments in commands;
      SendBufferIsEncoding(commands[1..]);
    }
  }

  lemma {:induction false} RequestsAreInjective(a: seq<Arguments>, b: seq<Arguments>)
    requires Requests(a) == Requests(b)
    ensures a == b
  {
    if a != [] && b != [] {
      assert Requests(a)[0] == Array(Bulks(a[0])) && Requests(b)[0] == Array(Bulks(b[0]));
      assert Requests(a)[1..] == Requests(a[1..]) && Requests(b)[1..] == Requests(b[1..]);
      BulksAreInjective(a[0], b[0]);
      RequestsAreInjective(a[1..], b[1..]);
    }
  }

  lemma {:induction false} BulksAreInjective(a: Arguments, b: Arguments)
    requires Bulks(a) == Bulks(b)
    ensures a == b
  {
    if a != [] && b != [] {
      assert Bulks(a)[0] == Bulk(a[0]) && Bulks(b)[0] == Bulk(b[0]);
      assert Bulks(a)[1..] == Bulks(a[1..]) && Bulks(b)[1..] == Bulks(b[1..]);
      BulksAreInjective(a[1..], b[1..]);
    }
  }

  /** The buffer of framed commands splits back into those commands, and into no other framed ones. */
  lemma {:induction false} SendBufferSplitsUniquely(a: seq<Arguments>, b: seq<Arguments>)
    requires Framable(a) && Framable(b)
    ensures DecodeAll(SendBuffer(a)) == Replies(AllIntended(Requests(a)))
    ensures SendBuffer(a) == SendBuffer(b) ==> a == b
  {
    SendBufferIsEncoding(a);
    PipelineFraming(Requests(a));
    if SendBuffer(a) == SendBuffer(b) {
      SendBufferIsEncoding(b);
      EncodingsAreUnique(Requests(a), Requests(b));
      RequestsAreInjective(a, b);
    }
  }

  /** One inline command with a line break in it prints like two. */
  lemma InlineCommandsAreAmbiguous(x: seq<byte>, y: seq<byte>)
    ensures SendBuffer([[x + CRLF + y]]) == SendBuffer([[x], [y]])
  {
    assert SendBuffer([[x + CRLF + y]]) == Serialize([x + CRLF + y]) + SendBuffer([]);
    assert [[x], [y]][1..] == [[y]];
    assert SendBuffer([[y]]) == Serialize([y]) + SendBuffer([]);
  }

  // ---- The client's two send operations ----

  /** What the connection does: whether writing and reading fail, and the bytes that arrive. */
  datatype Exchange = Exchange(writeError: bool, written: nat, readError: bool, buffer: seq<byte>, bytesRead: nat) {
    predicate Valid() { |buffer| == READ_BUFFER_SIZE && bytesRead <= READ_BUFFER_SIZE }

    /** What was read, if anything was, does not lead the decoder out of the buffer. */
    predicate WellFramed() { Valid() && (!writeError && !readError ==> DecodeAll(Received()) != StreamOverran) }

    function Received(): seq<byte>
      requires Valid()
    {
      buffer[..bytesRead]
    }
  }

  datatype SendResult = Sent(list: seq<ReplyData>) | Failed(what: Exception)

  function Copies(n: nat, reply: ReplyData): (s: seq<ReplyData>)
    ensures |s| == n && forall r :: r in s ==> r == reply
  {
    if n == 0 then [] else [reply] + Copies(n - 1, reply)
  }

  /** The outcome of a pipelined exchange for `n` commands printed as `sent`. */
  function Exchanged(n: nat, sent: seq<byte>, io: Exchange): SendResult
    requires io.WellFramed()
  {
    if io.writeError || io.written != |sent| then Sent(Copies(n, ReplyData(Nil, WriteError)))
    else if io.readError || io.bytesRead == 0 then Sent(Copies(n, ReplyData(Nil, ReadError)))
    else
      match DecodeAll(io.Received())
      case Replies(list) => Sent(list)
      case Broken(what) => Failed(what)
  }

  ghost function Lists(commands: seq<CommandObject>): (s: seq<Arguments>)
    reads commands
    ensures |s| == |commands| && forall i :: 0 <= i < |s| ==> s[i] == commands[i].commands
  {
    if commands == [] then [] else [commands[0].commands] + Lists(commands[1..])
  }

  /** The bytes of `commands` from `i` on, one command at a time. */
  lemma SendBufferStep(before: seq<byte>, commands: seq<Arguments>)
    requires commands != []
    ensures before + SendBuffer(commands) == before + Serialize(commands[0]) + SendBuffer(commands[1..])
  {
    Associate(before, Serialize(commands[0]), SendBuffer(commands[1..]));
  }

  method Concatenate(commands: seq<CommandObject>) returns (buffer: seq<byte>)
    ensures buffer == SendBuffer(Lists(commands))
  {
    buffer := [];
    ghost var lists := Lists(commands);
    assert lists[0..] == lists;
    for i := 0 to |commands|
      invariant SendBuffer(lists) == buffer + SendBuffer(lists[i..])
    {
      SendBufferStep(buffer, lists[i..]);
      assert lists[i..][1..] == lists[i + 1..];
      var text := commands[i].SerializedCommand();
      buffer := buffer + text;
    }
    assert buffer + [] == buffer;
  }

  lemma PrependStep(before: seq<ReplyData>, reply: ReplyData, others: Stream)
    requires others.Replies?
    ensures before + Prepend(reply, others).list == before + [reply] + others.list
  {
  }

  /** The loop that decodes every reply of a buffer. */
  method DecodeReplies(buffer: seq<byte>) returns (result: SendResult)
    requires DecodeAll(buffer) != StreamOverran
    ensures match DecodeAll(buffer)
            case Replies(list) => result == Sent(list)
            case Broken(what) => result == Failed(what)
  {
    var replies: seq<ReplyData> := [];
    var it := 0;
    ghost var expected := DecodeAll(buffer);
    assert buffer[0..] == buffer;
    while it != |buffer|
      invariant it <= |buffer|
      invariant DecodeAll(buffer[it..]) != StreamOverran
      invariant expected.Broken? ==> DecodeAll(buffer[it..]) == expected
      invariant expected.Replies? ==> DecodeAll(buffer[it..]).Replies? &&
                                      expected.list == replies + DecodeAll(buffer[it..]).list
      decreases |buffer| - it
    {
      var reply := new ReplyObject();
      var r := reply.LoadData(buffer, it);
      if r.Raised? {
        return Failed(r.what);
      }
      if expected.Replies? {
        PrependStep(replies, reply.Data(), DecodeAll(buffer[r.it..]));
      }
      it := r.it;
      replies := replies + [reply.Data()];
    }
    result := Sent(replies);
  }

  method SendPipeline(commands: seq<CommandObject>, io: Exchange) returns (result: SendResult)
    requires io.WellFramed()
    ensures result == Exchanged(|commands|, SendBuffer(Lists(commands)), io)
    ensures io.writeError || io.written != |SendBuffer(Lists(commands))| ==>
              result.Sent? && |result.list| == |commands| &&
              forall r :: r in result.list ==> r == ReplyData(Nil, WriteError)
    ensures !io.writeError && io.written == |SendBuffer(Lists(commands))| && (io.readError || io.bytesRead == 0) ==>
              result.Sent? && |result.list| == |commands| &&
              forall r :: r in result.list ==> r == ReplyData(Nil, ReadError)
    ensures !io.writeError && io.written == |SendBuffer(Lists(commands))| && !io.readError && io.bytesRead != 0 ==>
              match DecodeAll(io.Received())
              case Replies(list) => result == Sent(list)
              case Broken(what) => result == Failed(what)
  {
    var buffer := Concatenate(commands);
    if io.writeError || io.written != |buffer| {
      return Sent(Copies(|commands|, ReplyData(Nil, WriteError)));
    }
    if io.readError || io.bytesRead == 0 {
      return Sent(Copies(|commands|, ReplyData(Nil, ReadError)));
    }
    result := DecodeReplies(io.buffer[..io.bytesRead]);
  }

  /** The operation for one command keeps the first reply of what arrived and drops the rest. */
  method SendOne(command: CommandObject, io: Exchange) returns (result: SendResult)
    requires io.Valid()
    requires !io.writeError && !io.readError ==> Parse(io.Received()) != Overran
    ensures io.writeError || io.written != |Serialize(command.commands)| ==>
            result == Sent([ReplyData(Nil, WriteError)])
    ensures !io.writeError && io.written == |Serialize(command.commands)| ==>
            if io.readError || io.bytesRead == 0 then result == Sent([ReplyData(Nil, ReadError)])
            else match Parse(io.Received())
                 case Parsed(value, error, _) => result == Sent([ReplyData(value, error)])
                 case Threw(what) => result == Failed(what)
  {
    var buffer := command.SerializedCommand();
    if io.writeError || io.written != |buffer| {
      return Sent([ReplyData(Nil, WriteError)]);
    }
    if io.readError || io.bytesRead == 0 {
      return Sent([ReplyData(Nil, ReadError)]);
    }
    var reply := new ReplyObject();
    var received := io.buffer[..io.bytesRead];
    assert received[0..] == received;
    var r := reply.LoadData(received, 0);
    if r.Raised? {
      return Failed(r.what);
    }
    result := Sent([reply.Data()]);
  }

  /**
   A pipeline end to end: when everything is written and the answers arrive whole in one read,
   the caller gets exactly the replies the server sent, in order, if and only if none of them has
   a nested error.
   */
  lemma {:induction false} PipelineEndToEnd(commands: seq<Arguments>, io: Exchange, vs: seq<Value>)
    requires io.Valid() && !io.writeError && !io.readError && io.written == |SendBuffer(commands)|
    requires AllEncodable(vs) && vs != [] && io.Received() == EncodeAll(vs)
    ensures io.WellFramed()
    ensures Exchanged(|commands|, SendBuffer(commands), io) == Sent(AllIntended(vs)) <==>
            forall v :: v in vs ==> !HasNestedError(v)
  {
    PipelineFraming(vs);
    assert EncodeAll(vs) != [];
  }
}
