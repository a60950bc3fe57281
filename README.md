# Message relay: client retry and server queue, modelled in Dafny

A model of a small TCP message relay. Producers send `PUBLISH|<appId>|<content>`
and the server appends the third `|`-field to one shared FIFO queue: the
content up to its first `|`. Consumers send `RECEIVE|<appId>` and the server
answers `OK|<head>` after removing the head, or
`ERROR|No hay mensajes disponibles` when the queue is empty. The client opens
a new connection for each attempt, and makes at most two attempts per request,
so a request uses at most two connections. It sleeps 8 seconds after a failed
first attempt.

The sockets are taken away:

- a server request is the text read from a connection, and the reply is the text written back;
- the client's network is a `Transport`, a function from (frame, attempt number) to either the reply that attempt read or a failure.

Files:

- `wrappers.dfy`: `Option` and `Result`. `Option` stands for a C# `null` string, and `Result` for the exceptions of `Receive`.
- `wire.dfy`: `Split`, which is .NET's `String.Split(char)`. It keeps empty fields and always returns at least one field. The file also has `Join` and the lemmas that fields hold no separator and that joining rebuilds the text.
- `server.dfy`:
  - `Parse`, `Apply` and `Dispatch` specify how one request is handled.
  - `MessageQueue` is the `ConcurrentQueue<string>`.
  - `MQServer.Respond` is the `switch` on the command, and `MQServer.HandleClient` is the whole connection.
  - `RunRequests` runs requests one after another, and the FIFO lemmas are stated over it.
- `client.dfy`: the frames, the retry loop `MQClient.SendMessageWithRetry`, `Publish`, `Receive` and `InterpretReply`, which reads a reply.
- `relay.dfy`: lemmas that connect the two sides. The server parses client frames as intended, the client reads the head back, FIFO holds end to end, and `|` in content is cut off.

Three behaviours of the code that a reader might not expect:

- Content that holds `|` does not come back whole. The server stores only the third `|`-field (`parts[2]`), and the client returns only the second field of the reply (`parts[1]`). So `a|b|c` comes back as `a` (`Relay.DelimiterInContentIsCut`).
- A publish whose reply was lost may be stored twice. The client cannot tell a lost reply from an unreachable server, so it sends the same frame again (`Relay.RetriedPublishStoredTwice`).
- A reply that is exactly `OK`, with no `|`, makes `parts[1]` throw an index-out-of-range exception in `Receive`. This is modelled as the error `MissingField`.

## Model

| member | source | states |
|---|---|---|
| `Wire.Split` | TareaExtra2Datos/Program.cs:51 | splitting on `\|` always gives at least one field |
| `Wire.SplitFieldsFree` | TareaExtra2Datos/Program.cs:51 | no field of a split contains the separator |
| `Wire.JoinSplit` | Client/Clase.cs:33 | joining the fields with the separator rebuilds the split text |
| `Wire.SplitFree` | Client/Clase.cs:33 | a text without the separator splits into itself alone |
| `Wire.SplitCons` | TareaExtra2Datos/Program.cs:51 | a separator-free head followed by the separator becomes the first field, and the rest is split on its own |
| `Wire.SplitJoin` | TareaExtra2Datos/Program.cs:51 | splitting a join of separator-free fields gives those fields back |
| `Wire.SplitCount` | TareaExtra2Datos/Program.cs:58 | the number of fields is the number of separators plus one |
| `Wire.FirstFieldIsPrefix` | TareaExtra2Datos/Program.cs:52 | the command field is the text before the first `\|`, or the whole text when there is no `\|` |
| `Server.Parse` | TareaExtra2Datos/Program.cs:51-67 | reads the command field and, for a PUBLISH with at least three fields, the third field. Anything else is invalid. Published content never contains `\|`. |
| `Server.Apply` | TareaExtra2Datos/Program.cs:53-79 | computes the queue and reply for one command: append and acknowledge; remove the head and reply with it, or the empty-queue error; or the invalid-command error with the queue unchanged |
| `Server.Dispatch` | TareaExtra2Datos/Program.cs:51-79 | one request handled against the queue: `Apply` of `Parse` |
| `Server.RunRequests` | TareaExtra2Datos/Program.cs:21-36 | the connections the listener accepts, handled one at a time in arrival order with the threads left out: each request is dispatched against the queue the previous one left, and every request gets exactly one reply, in request order |
| `Server.MessageQueue.constructor` | TareaExtra2Datos/Program.cs:10 | the queue starts empty |
| `Server.MessageQueue.Enqueue` | TareaExtra2Datos/Program.cs:61 | the content is appended at the tail and nothing else changes |
| `Server.MessageQueue.TryDequeue` | TareaExtra2Datos/Program.cs:68 | on a non-empty queue, removes and returns the head and keeps the rest in order; on an empty queue, returns nothing and leaves the queue unchanged |
| `Server.MQServer.constructor` | TareaExtra2Datos/Program.cs:10 | the server owns a fresh, empty queue |
| `Server.MQServer.HandleClient` | TareaExtra2Datos/Program.cs:39-96 | a failed read changes nothing and writes no reply; a request read from the connection gets the reply `Dispatch` gives, and the queue becomes what `Dispatch` gives |
| `Server.MQServer.Respond` | TareaExtra2Datos/Program.cs:51-79 | the new queue and the reply are those of `Dispatch` on the old queue |
| `Server.PublishStoresThirdField` | TareaExtra2Datos/Program.cs:57-64 | a PUBLISH with three or more separator-free fields appends exactly the third field at the tail and replies `OK\|Mensaje recibido`; fields after it are dropped |
| `Server.DispatchKeepsQueueFree` | TareaExtra2Datos/Program.cs:60 | a queue with no `\|` in any item keeps that property after any request |
| `Server.RunKeepsQueueFree` | TareaExtra2Datos/Program.cs:60-61 | every queue built by a run of requests from a `\|`-free queue, the empty one included, stays `\|`-free |
| `Server.ShortPublishRejected` | TareaExtra2Datos/Program.cs:57-58 | a PUBLISH with fewer than two `\|` leaves the queue unchanged and replies `ERROR\|Comando no válido` |
| `Server.ReceiveTakesHead` | TareaExtra2Datos/Program.cs:67-78 | RECEIVE on a non-empty queue removes exactly the head, replies `OK\|` + head and keeps the rest in order; on an empty queue it replies `ERROR\|No hay mensajes disponibles` and the queue stays empty |
| `Server.UnknownCommandRejected` | TareaExtra2Datos/Program.cs:52-55 | any other command field, including the empty request, leaves the queue unchanged and replies `ERROR\|Comando no válido` |
| `Server.ClientIdIgnored` | TareaExtra2Datos/Program.cs:51-79 | two requests whose fields differ only in the client-id field get the same queue effect and the same reply |
| `Server.ReplyReportsEffect` | TareaExtra2Datos/Program.cs:53-79 | a reply starts with `OK\|` exactly when the queue changed. The change is either one item appended or the head removed and returned in the reply. |
| `Server.PublishesAppend` | TareaExtra2Datos/Program.cs:61 | a run of publishes appends their contents at the tail in order and acknowledges each one |
| `Server.ReceivesDrain` | TareaExtra2Datos/Program.cs:68-71 | as many receives as the queue holds return every item head first, each once, and empty the queue |
| `Server.PublishThenReceiveIsFifo` | TareaExtra2Datos/Program.cs:61-71 | on an empty queue, N publishes then N receives return the contents in publish order, each once, and leave the queue empty |
| `Client.PublishFrame` | Client/Clase.cs:24 | the text `PUBLISH\|` + appId + `\|` + content |
| `Client.ReceiveFrame` | Client/Clase.cs:30 | the text `RECEIVE\|` + appId |
| `Client.InterpretReply` | Client/Clase.cs:33-38 | the second field when the first is `OK`; `MissingField` with the reply when there is no second field; otherwise `ServerError` with the reply. Returned content never contains `\|`. |
| `Client.FirstReply` | Client/Clase.cs:52-91 | the reply of the first of the 2 attempts that read one, or none. A reply it gives is one that some attempt read. |
| `Client.MQClient.constructor` | Client/Clase.cs:15-20 | the client keeps the server address and its identity token |
| `Client.MQClient.SendMessageWithRetry` | Client/Clase.cs:48-92 | makes 1 to 2 attempts and stops at the first one that reads a reply. On success it returns true and that reply. After two failures it returns false and no response. It sleeps 8000 ms after each failed attempt except the last, so 8000 ms at most. |
| `Client.MQClient.SendMessage` | Client/Clase.cs:43-46 | the overload `SendMessageWithRetry(message)`: true exactly when some attempt read a reply |
| `Client.MQClient.Publish` | Client/Clase.cs:22-26 | sends exactly `PUBLISH\|appId\|content`. It returns true exactly when some attempt read a reply, `ERROR` replies included. |
| `Client.MQClient.Receive` | Client/Clase.cs:28-41 | sends exactly `RECEIVE\|appId`. With no reply it fails as unreachable. Otherwise its result is the reply read by `InterpretReply`. |
| `Client.FirstReplyIsFirstSuccess` | Client/Clase.cs:52-78 | the exchange's reply is that of the first attempt that got one. There is none when both attempts fail. |
| `Client.FirstReplyExists` | Client/Clase.cs:52-91 | an exchange has a reply exactly when one of the 2 attempts got one |
| `Client.PublishFrameFields` | Client/Clase.cs:24 | the publish frame's fields are `PUBLISH`, the id, then the content's own fields, and they join back to the frame |
| `Client.ReceiveFrameFields` | Client/Clase.cs:30 | the receive frame has exactly the fields `RECEIVE` and the id, with no content field |
| `Client.OkReplyYieldsContent` | Client/Clase.cs:33-36 | the reply `OK\|` + m yields m up to its first `\|`, and all of m when m has no `\|` |
| `Client.InterpretReplyCases` | Client/Clase.cs:33-38 | a reply yields content exactly when its first field is `OK` and a `\|` follows. It is `MissingField` with the reply exactly when it is `OK` with no `\|`. It is a server error carrying the whole reply exactly when the first field is something else. |
| `Relay.ParsePublishFrame` | TareaExtra2Datos/Program.cs:51-60 | the server reads a client publish frame as a publish of the content's first field |
| `Relay.ParseReceiveFrame` | TareaExtra2Datos/Program.cs:51-68 | the server reads a client receive frame as a receive |
| `Relay.AppIdIgnored` | TareaExtra2Datos/Program.cs:51-79 | frames from two different clients have the same effect and get the same reply |
| `Relay.ReceiveReadsHead` | Client/Clase.cs:31-38 | on a queue with no `\|` in any item, the client reads back exactly the head. On an empty queue it gets a server error carrying `ERROR\|No hay mensajes disponibles`. |
| `Relay.ClientFifo` | TareaExtra2Datos/Program.cs:60-71 | N publishes then N receives from an empty queue give each content back in order, cut at its first `\|`. Content without `\|` comes back whole. The queue ends empty. |
| `Relay.DelimiterInContentIsCut` | TareaExtra2Datos/Program.cs:60 | publishing `a\|b\|c` and then receiving yields `a` |
| `Relay.RetriedPublishStoredTwice` | Client/Clase.cs:52-88 | a publish frame resent after a lost reply is stored a second time |

## Left out

- TCP: listening, accepting, connecting with a timeout, stream reads and writes, socket timeouts and closing. The server sees a request as text (`None` when the read failed). The client sees a transport outcome per attempt.
- The listener loop, which accepts forever and starts one thread per connection. The shared queue's thread safety is also left out. Requests are handled one at a time, and each `Enqueue` or `TryDequeue` is one atomic step.
- `Thread.Sleep`: the sleep time is counted in `sleptMillis` instead. The 5000 ms connect, read and write timeout is spent inside the transport and is not modelled.
- UTF-8 encoding and the single read into a 1024-byte buffer. Requests and replies are whole strings, so truncation of long frames is not modelled.
- Console logging, the client's interactive `Program.Main` loop and `Guid.NewGuid()`. The identity token is `AppId`, any string without `|`.
- The text of exceptions and the split between `IOException` and other exceptions on the server. All of them mean that no reply is written.
- Server.MQServer.HandleClient: a write of the reply that fails after the queue has changed is not modelled. The client sees it as a failed attempt (`Failed`).
- The client's `ip` and `port`. They are kept on the client but are used only by the transport.
- The client's transport is not driven by the server's queue in one joint model. Lost replies and double delivery are shown on the server side (`Relay.RetriedPublishStoredTwice`) rather than by running the client's retry loop against a live server.
