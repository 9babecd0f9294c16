# Greeter service model

A Dafny model of the serving side of the Greeter gRPC service in
`src/Grpc.Playground.Api/Grpc/Services/GreeterService.cs`. It covers the four
call shapes the service implements:

- `Greet` (unary): one request, one response `"Hello <name>!"`.
- `GreetMany` (client streaming): reads the whole request stream, then answers
  once with `"Hello "` followed by all the names joined by `", "`.
- `GreetManyTimes` (server streaming): writes five responses
  `"Hello <name> <i>!"` for i = 0 to 4.
- `GreetOnTheFly` (bidirectional streaming): writes one `"Hello <name>!"` for
  each request, as it is read.

Files:

- `streams.dfy`: module `Messages` (the request and response messages) and
  module `Streams`. `RequestStream` is the server's reader over what the client
  sends. It has a cursor, `MoveNext` and `Current`. `ResponseStream` is the
  server's writer. Its `WriteAsync` only appends.
- `text.dfy`: module `Text`. It holds `string.Join`, the decimal rendering of a
  non-negative integer inside an interpolated string, and their inverses
  (`Split`, `DecimalToNat`).
- `greeter_service.dfy`: module `GreeterService`. It has the four operations,
  the specification functions that give their whole output, and lemmas about
  what that output means.
- `wrappers.dfy`: `Option`.

The service class has no fields and keeps nothing between calls. Its
operations are therefore members of module `GreeterService`, not of a class.
`Greet` is a function, as in the source, where it is a single expression. The
three streaming operations are methods with loops over the stream objects.
Each is proved against a specification function (`GreetManyResponse`,
`ManyTimesResponses`, `OnTheFlyResponses`). Most properties are then stated by
a parser that recovers the requests from the responses. One exception is
`Greet`'s determinism: it holds by construction, because `Greet` is a Dafny
function.

`GreetMany`'s message has no trailing `"!"` (GreeterService.cs line 27). An
empty stream is therefore answered with `"Hello "`, and the model follows the
code.

## Model

| member | source | states |
|---|---|---|
| `GreeterService.Greet` | src/Grpc.Playground.Api/Grpc/Services/GreeterService.cs:11-12 | the message is "Hello ", then the request's name unchanged, then one final "!" (length, prefix, middle and last character) |
| `GreeterService.GreetParseRoundTrip` | src/Grpc.Playground.Api/Grpc/Services/GreeterService.cs:11-12 | parsing the unary greeting gives back exactly the request's name |
| `GreeterService.ParseGreetRoundTrip` | src/Grpc.Playground.Api/Grpc/Services/GreeterService.cs:11-12 | every text of the form the parser accepts is the greeting of the name it reads, so the greeting format and the parser are inverse bijections |
| `GreeterService.GreetInjective` | src/Grpc.Playground.Api/Grpc/Services/GreeterService.cs:11-12 | two requests get the same greeting only if they carry the same name |
| `Streams.RequestStream.MoveNext` | src/Grpc.Playground.Api/Grpc/Services/GreeterService.cs:20-22 | returns true exactly when unread requests remain; if so, it moves to the first of them, which `Current` then gives; otherwise nothing moves |
| `Streams.ResponseStream.WriteAsync` | src/Grpc.Playground.Api/Grpc/Services/GreeterService.cs:53-58 | the written responses become the old ones plus the new one at the end; nothing already written changes |
| `GreeterService.Names` | src/Grpc.Playground.Api/Grpc/Services/GreeterService.cs:27 | `requests.Select(r => r.Name)`: one name per request, the k-th from the k-th request, so arrival order is kept |
| `GreeterService.GreetMany` | src/Grpc.Playground.Api/Grpc/Services/GreeterService.cs:14-29 | drains the request stream (it ends at end of stream), writes to no response stream, and answers "Hello " followed by the names of all requests that were unread at the start, in arrival order, joined by ", " (the loop invariant: collected list + unread requests = everything that arrives) |
| `GreeterService.GreetManyEmpty` | src/Grpc.Playground.Api/Grpc/Services/GreeterService.cs:27 | an empty request stream is answered with exactly "Hello " |
| `GreeterService.GreetManySingle` | src/Grpc.Playground.Api/Grpc/Services/GreeterService.cs:27 | a one-request stream is answered with "Hello " and the name, with no separator and no "!": the unary greeting minus its last character |
| `GreeterService.GreetManyAppend` | src/Grpc.Playground.Api/Grpc/Services/GreeterService.cs:27 | one more request adds ", " and its name at the end of the message, so names appear in arrival order |
| `GreeterService.GreetManyRecoversNames` | src/Grpc.Playground.Api/Grpc/Services/GreeterService.cs:25-28 | for a non-empty stream of comma-free names, splitting the message after "Hello " at ", " recovers exactly the names, in order |
| `GreeterService.GreetManyAmbiguous` | src/Grpc.Playground.Api/Grpc/Services/GreeterService.cs:27 | those conditions are needed: an empty stream and a single empty name get the same message, and so do ["a, b"] and ["a", "b"] |
| `Text.Join` | src/Grpc.Playground.Api/Grpc/Services/GreeterService.cs:27 | `string.Join`: no parts give the empty text; otherwise the text starts with the first part |
| `Text.JoinEndsWithLast` | src/Grpc.Playground.Api/Grpc/Services/GreeterService.cs:27 | a join of at least one part ends with the last part |
| `Text.JoinSnoc` | src/Grpc.Playground.Api/Grpc/Services/GreeterService.cs:27 | joining one more part adds exactly one separator and that part at the end |
| `Text.Find` | src/Grpc.Playground.Api/Grpc/Services/GreeterService.cs:27 | the position returned is an occurrence of the pattern with none before it; None means the pattern occurs nowhere (used by the splitter that inverts the join) |
| `Text.SplitJoin` | src/Grpc.Playground.Api/Grpc/Services/GreeterService.cs:27 | splitting undoes `string.Join` for a non-empty list whose parts do not hold the separator's first character |
| `Text.NatToDecimal` | src/Grpc.Playground.Api/Grpc/Services/GreeterService.cs:40 | the interpolated integer is a canonical decimal numeral: at least one digit, only digits, no leading zero |
| `Text.DecimalRoundTrip` | src/Grpc.Playground.Api/Grpc/Services/GreeterService.cs:40 | reading a rendered number back gives the number |
| `Text.DecimalCanonicalRoundTrip` | src/Grpc.Playground.Api/Grpc/Services/GreeterService.cs:40 | every canonical numeral is the rendering of its value, so rendering is a bijection onto canonical numerals |
| `GreeterService.GreetManyTimes` | src/Grpc.Playground.Api/Grpc/Services/GreeterService.cs:31-44 | appends exactly the five greetings "Hello <name> <i>!" for i = 0, 1, 2, 3, 4, in that order, after what the stream already held |
| `GreeterService.IndexedIsGreeting` | src/Grpc.Playground.Api/Grpc/Services/GreeterService.cs:40 | a numbered greeting is the unary greeting of "<name> <i>" |
| `GreeterService.IndexedRoundTrip` | src/Grpc.Playground.Api/Grpc/Services/GreeterService.cs:40 | parsing a numbered greeting gives back the name and the index, whatever the name holds (spaces and digits included) |
| `GreeterService.IndexedParseRoundTrip` | src/Grpc.Playground.Api/Grpc/Services/GreeterService.cs:40 | every text the numbered-greeting parser accepts is the numbered greeting of what it reads |
| `GreeterService.ManyTimesShape` | src/Grpc.Playground.Api/Grpc/Services/GreeterService.cs:36-41 | the server stream holds exactly 5 responses, and response k names the request and carries index k |
| `GreeterService.ManyTimesDistinct` | src/Grpc.Playground.Api/Grpc/Services/GreeterService.cs:36-41 | no two streamed responses are equal |
| `GreeterService.ManyTimesForWill` | src/Grpc.Playground.Api/Grpc/Services/GreeterService.cs:36-41 | for the name "Will" the stream is exactly "Hello Will 0!" through "Hello Will 4!" |
| `GreeterService.GreetOnTheFly` | src/Grpc.Playground.Api/Grpc/Services/GreeterService.cs:46-60 | drains the request stream and appends one unary greeting per request, in arrival order, after what the response stream already held; at every loop head the responses written correspond one to one to the requests read |
| `GreeterService.OnTheFlyShape` | src/Grpc.Playground.Api/Grpc/Services/GreeterService.cs:51-59 | there are as many responses as requests, and response k parses back to the name of request k |
| `GreeterService.OnTheFlyPrefix` | src/Grpc.Playground.Api/Grpc/Services/GreeterService.cs:51-59 | the responses to a stream are the responses to any prefix of it followed by the responses to the rest, so later requests never change earlier answers |

## Left out

- `await`, `Task` and suspension are left out. Every operation runs to completion in one step, and `Task.FromResult` in `Greet` is the plain value.
- The `Task.Delay` of one second between the responses of `GreetManyTimes` is not modelled. It is timing only.
- `ServerCallContext` is not modelled. The service never reads it. Cancellation, deadlines and backpressure belong to the transport.
- The request stream is a finite, known sequence (what the client sends before it completes its side). An unbounded session is not modelled, and neither is a transport error while reading.
- `GreetOnTheFly` reads through `ReadAllAsync()` (line 51). The model reads with the `MoveNext`/`Current` loop that `ReadAllAsync()` performs. The exact interleaving of reads and writes is stated only by the loop invariant of `GreetOnTheFly`, not as a trace of events.
- `MetricLoggingInterceptor` is not part of this model. It measures wall-clock time, writes to the console, and otherwise delegates to a gRPC base class that is not visible.
- `GreeterClientConfigurator` is not part of this model. It only fills in keep-alive, retry and hedging options whose behaviour lives in the gRPC client library.
- `Startup.cs`, `Program.cs` and the four client examples are not part of this model. They are dependency-injection wiring and console-driven drivers; one of them uses a background reader task.
