/** redis/client.cpp: what the error codes of a pipeline's replies tell about its three steps. */
module SendCodes {
  import opened Bytes
  import opened Values
  import opened Client
  import opened Layouts

  /** Some reply carries the code. */
  predicate Carries(replies: seq<ReplyData>, code: ErrorCode) { exists r :: r in replies && r.error == code }

  /** No bytes whatever decode to a reply with a code of the two other steps. */
  lemma {:induction false} DecodedCarryNeither(s: seq<byte>)
    requires DecodeAll(s).Replies?
    ensures !Carries(DecodeAll(s).list, WriteError) && !Carries(DecodeAll(s).list, ReadError)
  {
    RepliesAnswerPlainly(s);
  }

  /**
   In a pipeline of at least one command the codes tell exactly which step failed: replies with the
   write error mean that writing failed or was short, replies with the read error that writing went
   well and nothing was read, and every other outcome that the bytes read were decoded.
   */
  lemma {:induction false} CodesTellTheStep(n: nat, sent: seq<byte>, io: Exchange)
    requires n > 0 && io.WellFramed()
    ensures var result, written := Exchanged(n, sent, io), !io.writeError && io.written == |sent|;
            && (result.Sent? && Carries(result.list, WriteError) <==> !written)
            && (result.Sent? && Carries(result.list, ReadError) <==> written && (io.readError || io.bytesRead == 0))
            && (!written || io.readError || io.bytesRead == 0 ==>
                  result.Sent? && |result.list| == n &&
                  forall r :: r in result.list ==>
                    r == ReplyData(Nil, if written then ReadError else WriteError))
  {
    var result := Exchanged(n, sent, io);
    if result.Sent? && result.list != [] {
      assert result.list[0] in result.list;
    }
    if DecodeAll(io.Received()).Replies? {
      DecodedCarryNeither(io.Received());
    }
  }
}
