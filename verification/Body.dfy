/** Assembling a request body in memory from the bytes already read and the rest of the stream. */
module Body {
  import opened Common
  import opened CStrings
  import opened Framing

  const CONTINUE: seq<octet> := ['1', '0', '0', '-', 'c', 'o', 'n', 't', 'i', 'n', 'u', 'e']

  datatype Outcome = LengthRequired | ExpectationFailed | Complete | BodyError

  /** What comes of a body whose headers give this length and expectation. */
  function Expected(contentLen: Option<nat>, expectation: Option<seq<octet>>, supply: nat): Outcome {
    if contentLen.None? then LengthRequired
    else if expectation.Some? && LowerAll(expectation.value) != LowerAll(CONTINUE) then ExpectationFailed
    else if contentLen.value <= supply then Complete
    else BodyError
  }

  class RequestInfo {
    var postData: seq<octet>
    var postDataLen: nat

    /** The bytes the callback is given. */
    function Data(): seq<octet>
      requires postDataLen <= |postData|
      reads this
    {
      postData[..postDataLen]
    }

    /** append_chunk without a file: realloc, then memcpy. */
    method AppendChunk(chunk: seq<octet>)
      requires postDataLen <= |postData|
      modifies this
      ensures postDataLen <= |postData| && Data() == old(Data()) + chunk
    {
      postData := postData[..postDataLen] + chunk;
      postDataLen := postDataLen + |chunk|;
    }

    /** The loop that moves up to left bytes from the peer to the body; returns how many are missing. */
    method PullRest(peer: Peer, bufsiz: nat, left: nat) returns (missing: nat)
      requires postDataLen <= |postData| && bufsiz > 0
      modifies this, peer
      ensures postDataLen <= |postData| && missing <= left && postDataLen == old(postDataLen) + left - missing
      ensures Data() + peer.incoming == old(Data()) + old(peer.incoming)
      ensures missing > 0 ==> peer.incoming == []
    {
      hide PieceSize, Later;
      missing := left;
      while missing > 0
        invariant missing <= left && postDataLen == old(postDataLen) + left - missing
        invariant postDataLen <= |postData| && Data() + peer.incoming == old(Data()) + old(peer.incoming)
      {
        ghost var data, incoming := Data(), peer.incoming;
        var toRead := if bufsiz > missing then missing else bufsiz;
        var chunk := peer.Pull(toRead);
        if chunk == [] {
          break;
        }
        MovePiece(data, incoming, |chunk|);
        AppendChunk(chunk);
        missing := missing - |chunk|;
      }
    }

    /**
     handle_request_body in embedded mode.  The outcome and the data depend on the bytes the peer
     supplies, not on the pieces they come in.
     */
    method HandleRequestBody(peer: Peer, bufsiz: nat, contentLen: Option<nat>, expectation: Option<seq<octet>>)
      returns (outcome: Outcome)
      requires postDataLen <= |postData| && bufsiz > 0
      requires contentLen.Some? ==> contentLen.value <= 0x7fff_ffff
      modifies this, peer
      ensures postDataLen <= |postData|
      ensures outcome == Expected(contentLen, expectation, |old(Data())| + |old(peer.incoming)|)
      ensures outcome == LengthRequired <==> contentLen.None?
      ensures var understood := LowerAll(['1', '0', '0', '-', 'c', 'o', 'n', 't', 'i', 'n', 'u', 'e']);
              outcome == ExpectationFailed <==>
              contentLen.Some? && expectation.Some? && LowerAll(expectation.value) != understood
      ensures outcome == Complete ==> contentLen.value <= |old(Data())| + |old(peer.incoming)|
      ensures outcome == BodyError ==> contentLen.value > |old(Data())| + |old(peer.incoming)|
      ensures outcome == Complete ==> Data() == (old(Data()) + old(peer.incoming))[..contentLen.value]
      ensures outcome == Complete ==>
                if contentLen.value <= |old(Data())| then peer.incoming == old(peer.incoming)
                else Data() + peer.incoming == old(Data()) + old(peer.incoming)
      ensures outcome == BodyError ==> Data() == old(Data()) + old(peer.incoming) && peer.incoming == []
      ensures outcome == LengthRequired || outcome == ExpectationFailed ==>
                Data() == old(Data()) && peer.incoming == old(peer.incoming)
    {
      hide LowerAll;
      if contentLen.None? {
        return LengthRequired;
      }
      if expectation.Some? {
        var differs := LowerAll(expectation.value) != LowerAll(CONTINUE);
        if differs {
          return ExpectationFailed;
        }
      }
      var alreadyRead := postDataLen;
      if contentLen.value <= alreadyRead {
        postDataLen := contentLen.value;
        return Complete;
      }
      postData := postData[..alreadyRead] + [NUL];
      assert Data() == old(Data());
      var missing := PullRest(peer, bufsiz, contentLen.value - alreadyRead);
      Parts(Data(), peer.incoming);
      outcome := if missing == 0 then Complete else BodyError;
    }
  }

  lemma MovePiece(data: seq<octet>, incoming: seq<octet>, n: nat)
    requires n <= |incoming|
    ensures (data + incoming[..n]) + incoming[n..] == data + incoming
  {
  }

  lemma Parts(data: seq<octet>, incoming: seq<octet>)
    ensures |data + incoming| == |data| + |incoming| && (data + incoming)[..|data|] == data
    ensures incoming == [] ==> data + incoming == data
  {
  }
}
