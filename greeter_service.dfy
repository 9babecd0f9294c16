/**
 * The serving side of the Greeter service: one operation per call shape.
 *
 *   Greet           unary              one request, one "Hello <name>!"
 *   GreetMany       client streaming   all requests, one "Hello <n1>, <n2>, ..."
 *   GreetManyTimes  server streaming   one request, five "Hello <name> <i>!"
 *   GreetOnTheFly   bidirectional      one "Hello <name>!" per request, as it arrives
 *
 * The service keeps no state between calls, so the operations are members of
 * this module rather than of a class. Each streaming operation is a method over
 * the stream objects of module Streams, proved against a function that gives
 * its whole output; the lemmas below state what those outputs mean, mostly by
 * showing that a parser recovers the requests from them.
 */
module GreeterService {
  import opened Wrappers
  import opened Text
  import opened Messages
  import opened Streams

  const Hello: string := "Hello "

  /** The separator GreetMany puts between names. */
  const Separator: string := ", "

  /** How many responses GreetManyTimes sends. */
  const Repetitions: nat := 5

  // ---------------------------------------------------------------------------
  // Greet (unary)

  /** The unary call: a greeting made of "Hello ", the name and a final "!". */
  function Greet(request: GreeterRequest): (response: GreeterResponse)
    ensures |response.message| == |Hello| + |request.name| + 1
    ensures response.message[..|Hello|] == Hello
    ensures response.message[|Hello|..|response.message| - 1] == request.name
    ensures response.message[|response.message| - 1] == '!'
  {
    GreeterResponse(Hello + request.name + "!")
  }

  /** Reads the name back out of a unary greeting; None for any other text. */
  function ParseGreeting(message: string): Option<string>
  {
    if |message| >= |Hello| + 1 && message[..|Hello|] == Hello && message[|message| - 1] == '!'
    then Some(message[|Hello|..|message| - 1])
    else None
  }

  lemma GreetParseRoundTrip(request: GreeterRequest)
    ensures ParseGreeting(Greet(request).message) == Some(request.name)
  {
  }

  /** Every text the parser accepts is the greeting of the name it reads. */
  lemma ParseGreetRoundTrip(message: string)
    requires ParseGreeting(message).Some?
    ensures Greet(GreeterRequest(ParseGreeting(message).value)).message == message
  {
  }

  /** Different names get different greetings. */
  lemma GreetInjective(a: GreeterRequest, b: GreeterRequest)
    requires Greet(a) == Greet(b)
    ensures a == b
  {
  }

  // ---------------------------------------------------------------------------
  // GreetMany (client streaming)

  /** The names of the requests, in arrival order (`requests.Select(r => r.Name)`). */
  function Names(requests: seq<GreeterRequest>): (names: seq<string>)
    ensures |names| == |requests|
    ensures forall k :: 0 <= k < |requests| ==> names[k] == requests[k].name
  {
    seq(|requests|, k requires 0 <= k < |requests| => requests[k].name)
  }

  /** The single response to a whole stream of requests. */
  function GreetManyResponse(requests: seq<GreeterRequest>): GreeterResponse
  {
    GreeterResponse(Hello + Join(Separator, Names(requests)))
  }

  /**
   * Reads the request stream to its end, then answers once with every name,
   * in arrival order, joined by ", ".
   */
  method GreetMany(requestStream: RequestStream) returns (response: GreeterResponse)
    requires requestStream.Valid()
    modifies requestStream
    ensures requestStream.Valid() && requestStream.AtEnd()
    ensures response == GreetManyResponse(old(requestStream.Remaining()))
  {
    ghost var arrived := requestStream.Remaining();
    var requests: seq<GreeterRequest> := [];
    while true
      invariant requestStream.Valid()
      invariant requests + requestStream.Remaining() == arrived
      decreases |requestStream.Remaining()|
    {
      var more := requestStream.MoveNext();
      if !more {
        break;
      }
      requests := requests + [requestStream.Current()];
    }
    assert requests == arrived;
    response := GreeterResponse(Hello + Join(Separator, Names(requests)));
  }

  /** An empty stream is answered with "Hello " and nothing after it. */
  lemma GreetManyEmpty()
    ensures GreetManyResponse([]).message == "Hello "
  {
  }

  /**
   * A stream of one request is answered with "Hello " and the name, with no
   * separator and no "!": the unary greeting without its last character.
   */
  lemma GreetManySingle(request: GreeterRequest)
    ensures GreetManyResponse([request]).message == "Hello " + request.name
    ensures GreetManyResponse([request]).message == Greet(request).message[..|Greet(request).message| - 1]
  {
  }

  /** Each further request adds ", " and its name at the end of the message. */
  lemma GreetManyAppend(requests: seq<GreeterRequest>, last: GreeterRequest)
    requires |requests| > 0
    ensures GreetManyResponse(requests + [last]).message
         == GreetManyResponse(requests).message + ", " + last.name
  {
    assert Names(requests + [last]) == Names(requests) + [last.name];
    JoinSnoc(Separator, Names(requests), last.name);
  }

  /** Reads the names back out of a GreetMany answer; None if it does not start with "Hello ". */
  function ParseGreetMany(message: string): Option<seq<string>>
  {
    if |message| >= |Hello| && message[..|Hello|] == Hello
    then Some(Split(message[|Hello|..], Separator))
    else None
  }

  /**
   * When at least one request arrived and no name holds a comma, the answer
   * determines every name and their order.
   */
  lemma GreetManyRecoversNames(requests: seq<GreeterRequest>)
    requires |requests| > 0
    requires forall k :: 0 <= k < |requests| ==> ',' !in requests[k].name
    ensures ParseGreetMany(GreetManyResponse(requests).message) == Some(Names(requests))
  {
    var names := Names(requests);
    assert FreeOf(names, Separator[0]) by {
      forall k | 0 <= k < |names| ensures Separator[0] !in names[k] {
        assert names[k] == requests[k].name;
      }
    }
    var message := GreetManyResponse(requests).message;
    assert message[..|Hello|] == Hello;
    assert message[|Hello|..] == Join(Separator, names);
    SplitJoin(Separator, names);
  }

  /**
   * Without those two conditions the names cannot be recovered: an empty
   * stream and a single empty name get the same answer, and so do one name
   * holding ", " and the two names on either side of it.
   */
  lemma GreetManyAmbiguous()
    ensures GreetManyResponse([]) == GreetManyResponse([GreeterRequest("")])
    ensures GreetManyResponse([GreeterRequest("a, b")])
         == GreetManyResponse([GreeterRequest("a"), GreeterRequest("b")])
  {
    assert Names([GreeterRequest("")]) == [""];
    assert Names([GreeterRequest("a, b")]) == ["a, b"];
    assert Names([GreeterRequest("a"), GreeterRequest("b")]) == ["a", "b"];
    assert ["a", "b"][1..] == ["b"];
    assert Join(Separator, ["a", "b"]) == "a" + Separator + Join(Separator, ["b"]);
    assert Join(Separator, ["a", "b"]) == "a, b";
  }

  // ---------------------------------------------------------------------------
  // GreetManyTimes (server streaming)

  /** The i-th greeting of GreetManyTimes: "Hello <name> <i>!". */
  function IndexedGreeting(name: string, index: nat): string
  {
    Hello + name + " " + NatToDecimal(index) + "!"
  }

  /** The first `count` responses GreetManyTimes sends, indices 0 to count - 1. */
  function ManyTimesResponses(name: string, count: nat): seq<GreeterResponse>
  {
    seq(count, k requires 0 <= k => GreeterResponse(IndexedGreeting(name, k)))
  }

  /** Sends five numbered greetings, in increasing order, after whatever was sent before. */
  method GreetManyTimes(request: GreeterRequest, responseStream: ResponseStream)
    modifies responseStream
    ensures responseStream.written
         == old(responseStream.written) + ManyTimesResponses(request.name, Repetitions)
  {
    for i := 0 to Repetitions
      invariant responseStream.written
             == old(responseStream.written) + ManyTimesResponses(request.name, i)
    {
      responseStream.WriteAsync(GreeterResponse(IndexedGreeting(request.name, i)));
      assert ManyTimesResponses(request.name, i + 1)
          == ManyTimesResponses(request.name, i) + [GreeterResponse(IndexedGreeting(request.name, i))];
    }
  }

  /**
   * Reads name and index back out of a numbered greeting: the index is the
   * canonical numeral after the last space; None for any other text.
   */
  function ParseIndexedGreeting(message: string): Option<(string, nat)>
  {
    match ParseGreeting(message)
      case None => None
      case Some(body) =>
        match LastIndexOf(body, ' ')
          case None => None
          case Some(j) =>
            if IsCanonicalDecimal(body[j + 1..])
            then Some((body[..j], DecimalToNat(body[j + 1..])))
            else None
  }

  /** A numbered greeting is the unary greeting of "<name> <index>". */
  lemma IndexedIsGreeting(name: string, index: nat)
    ensures IndexedGreeting(name, index) == Greet(GreeterRequest(name + [' '] + NatToDecimal(index))).message
  {
  }

  /** How ParseIndexedGreeting reads a unary greeting whose body has a canonical numeral after its last space. */
  lemma ParseIndexedAt(message: string, body: string, j: nat)
    requires ParseGreeting(message) == Some(body)
    requires LastIndexOf(body, ' ') == Some(j) && IsCanonicalDecimal(body[j + 1..])
    ensures ParseIndexedGreeting(message) == Some((body[..j], DecimalToNat(body[j + 1..])))
  {
  }

  lemma IndexedRoundTrip(name: string, index: nat)
    ensures ParseIndexedGreeting(IndexedGreeting(name, index)) == Some((name, index))
  {
    var digits := NatToDecimal(index);
    var body := name + [' '] + digits;
    IndexedIsGreeting(name, index);
    GreetParseRoundTrip(GreeterRequest(body));
    assert ' ' !in digits;
    LastIndexAfter(name, ' ', digits);
    assert body[..|name|] == name && body[|name| + 1..] == digits;
    ParseIndexedAt(IndexedGreeting(name, index), body, |name|);
    DecimalRoundTrip(index);
  }

  /** Every text the parser accepts is the numbered greeting it reads. */
  lemma IndexedParseRoundTrip(message: string)
    requires ParseIndexedGreeting(message).Some?
    ensures IndexedGreeting(ParseIndexedGreeting(message).value.0, ParseIndexedGreeting(message).value.1)
         == message
  {
    var body := ParseGreeting(message).value;
    var j := LastIndexOf(body, ' ').value;
    var name, digits := body[..j], body[j + 1..];
    ParseIndexedAt(message, body, j);
    DecimalCanonicalRoundTrip(digits);
    assert body == name + [' '] + digits;
    IndexedIsGreeting(name, DecimalToNat(digits));
    ParseGreetRoundTrip(message);
  }

  /**
   * GreetManyTimes sends exactly five responses, and the k-th names the
   * request and carries index k.
   */
  lemma ManyTimesShape(name: string)
    ensures |ManyTimesResponses(name, Repetitions)| == 5
    ensures forall k :: 0 <= k < Repetitions ==>
      ParseIndexedGreeting(ManyTimesResponses(name, Repetitions)[k].message) == Some((name, k))
  {
    forall k | 0 <= k < Repetitions
      ensures ParseIndexedGreeting(ManyTimesResponses(name, Repetitions)[k].message) == Some((name, k))
    {
      IndexedRoundTrip(name, k);
    }
  }

  /** No two of the streamed responses are the same. */
  lemma ManyTimesDistinct(name: string, count: nat, j: nat, k: nat)
    requires j < count && k < count && j != k
    ensures ManyTimesResponses(name, count)[j] != ManyTimesResponses(name, count)[k]
  {
    IndexedRoundTrip(name, j);
    IndexedRoundTrip(name, k);
  }

  /** What the server-streaming call sends for the request named "Will". */
  lemma ManyTimesForWill()
    ensures ManyTimesResponses("Will", Repetitions) == [
      GreeterResponse("Hello Will 0!"), GreeterResponse("Hello Will 1!"),
      GreeterResponse("Hello Will 2!"), GreeterResponse("Hello Will 3!"),
      GreeterResponse("Hello Will 4!")]
  {
    var rs := ManyTimesResponses("Will", Repetitions);
    assert NatToDecimal(0) == "0" && NatToDecimal(1) == "1" && NatToDecimal(2) == "2";
    assert NatToDecimal(3) == "3" && NatToDecimal(4) == "4";
    assert rs[0].message == "Hello Will 0!" && rs[1].message == "Hello Will 1!";
    assert rs[2].message == "Hello Will 2!" && rs[3].message == "Hello Will 3!";
    assert rs[4].message == "Hello Will 4!";
  }

  // ---------------------------------------------------------------------------
  // GreetOnTheFly (bidirectional streaming)

  /** One unary greeting per request, in the order the requests arrived. */
  function OnTheFlyResponses(requests: seq<GreeterRequest>): seq<GreeterResponse>
  {
    seq(|requests|, k requires 0 <= k < |requests| => Greet(requests[k]))
  }

  /**
   * Answers each request as it is read, before reading the next; ends when the
   * client completes its side.
   */
  method GreetOnTheFly(requestStream: RequestStream, responseStream: ResponseStream)
    requires requestStream.Valid()
    modifies requestStream, responseStream
    ensures requestStream.Valid() && requestStream.AtEnd()
    ensures responseStream.written
         == old(responseStream.written) + OnTheFlyResponses(old(requestStream.Remaining()))
  {
    ghost var arrived := requestStream.Remaining();
    ghost var read: seq<GreeterRequest> := [];
    while true
      invariant requestStream.Valid()
      invariant read + requestStream.Remaining() == arrived
      invariant responseStream.written == old(responseStream.written) + OnTheFlyResponses(read)
      decreases |requestStream.Remaining()|
    {
      var more := requestStream.MoveNext();
      if !more {
        break;
      }
      var request := requestStream.Current();
      read := read + [request];
      responseStream.WriteAsync(Greet(request));
      assert OnTheFlyResponses(read) == OnTheFlyResponses(read[..|read| - 1]) + [Greet(request)];
    }
    assert read == arrived;
  }

  /** Exactly one response per request, and the k-th greets the k-th name. */
  lemma OnTheFlyShape(requests: seq<GreeterRequest>)
    ensures |OnTheFlyResponses(requests)| == |requests|
    ensures forall k :: 0 <= k < |requests| ==>
      ParseGreeting(OnTheFlyResponses(requests)[k].message) == Some(requests[k].name)
  {
  }

  /**
   * The answers to the first requests do not depend on the later ones: the
   * responses to a longer stream extend the responses to its prefix.
   */
  lemma OnTheFlyPrefix(earlier: seq<GreeterRequest>, later: seq<GreeterRequest>)
    ensures OnTheFlyResponses(earlier + later) == OnTheFlyResponses(earlier) + OnTheFlyResponses(later)
  {
  }
}
