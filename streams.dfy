/** The two messages of the Greeter service: a request carries a name, a response a greeting. */
module Messages {

  datatype GreeterRequest = GreeterRequest(name: string)

  datatype GreeterResponse = GreeterResponse(message: string)
}

/**
 * The server's view of the two directions of a call. A request stream hands
 * out, one at a time and in arrival order, the requests the client sends before
 * it completes its side; a response stream is written only by appending.
 */
module Streams {
  import opened Messages

  /** `IAsyncStreamReader<GreeterRequest>`: a cursor over what the client sends. */
  class RequestStream {
    /** Every request the client sends on this call, in order. */
    const requests: seq<GreeterRequest>
    /** How many requests `MoveNext` has moved past. */
    var consumed: nat

    ghost predicate Valid()
      reads this
    {
      consumed <= |requests|
    }

    constructor (requests: seq<GreeterRequest>)
      ensures Valid() && this.requests == requests && consumed == 0
    {
      this.requests := requests;
      consumed := 0;
    }

    /** The requests not yet read. */
    ghost function Remaining(): seq<GreeterRequest>
      reads this
      requires Valid()
    {
      requests[consumed..]
    }

    /** True once the client has completed its side and every request has been read. */
    ghost predicate AtEnd()
      reads this
      requires Valid()
    {
      Remaining() == []
    }

    /**
     * Advances to the next request; false (and no move) once the client has
     * completed and nothing is left.
     */
    method MoveNext() returns (more: bool)
      requires Valid()
      modifies this
      ensures Valid()
      ensures more <==> old(Remaining()) != []
      ensures more ==> consumed == old(consumed) + 1 && Current() == old(Remaining())[0] && Remaining() == old(Remaining())[1..]
      ensures !more ==> consumed == old(consumed)
    {
      more := consumed < |requests|;
      if more {
        consumed := consumed + 1;
      }
    }

    /** The request `MoveNext` last moved to. */
    function Current(): GreeterRequest
      reads this
      requires Valid() && consumed > 0
    {
      requests[consumed - 1]
    }
  }

  /** `IServerStreamWriter<GreeterResponse>`: what the server has sent so far. */
  class ResponseStream {
    var written: seq<GreeterResponse>

    constructor ()
      ensures written == []
    {
      written := [];
    }

    /** Sends one more response after those already sent. */
    method WriteAsync(response: GreeterResponse)
      modifies this
      ensures written == old(written) + [response]
    {
      written := written + [response];
    }
  }
}
