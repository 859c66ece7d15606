# Distributed-systems lab exercises, modelled in Dafny

This project models the sequential logic inside a set of small
distributed-systems lab programs and proves what that logic promises. The
sockets, brokers, RPC runtimes and threads around it are not modelled.

- **TCP chat relay** (`ChatProtocol`, `ChatServer`, `ChatClient`).
  - The envelope `nick:message` and the `INIT` handshake.
  - The server's membership set, driven by a trace of (connection, event) pairs.
  - The broadcast to every member except the sender.
  - The client's handshake-then-chat sequence and its 1024-character line gate.
  - The server's `recv(1024)`, for an envelope written in one piece. The gate does not count the nick, so an envelope that passes it can be longer than one receive. The server then relays it as several frames.
- **Weather subscription** (`Weather`).
  - The `subscribe` filter over the three stored records, as the exact sequence of observer calls (`onError`, `onNext`, `onCompleted`).
  - The source's quirks are kept: an empty type list does not return, and the humidity "min only" branch is guarded by `min_temperature`.
- **Poll/vote store** (`PyList`, `Polls`). The module-level list of polls and the ten handler bodies, as in-place list operations. Python indexing is modelled, negative indices and `IndexError` included.
- **Little-endian integer codec with increment** (`Int32`, `IntCodec`, `IncrementServer`, `IncrementClient`).
  - The Java server zeroes its 1024-byte buffer, receives, decodes a signed 32-bit little-endian int, adds one with wrap-around and replies with four bytes.
  - The Python client encodes 300 and reads the reply as unsigned.
- **Ping classifier** (`PingPong`). The `partition`-based `JAVA: ` / `PYTHON: ` classification, and the receive loop that stops at the first `ValueError`.
- **Delivery ordering** (`DeliverySettings`, `Agency`, `Carrier`).
  - The agency's order loop: exit, type validation, routing key, `orderNo:agency:type` body, and the order counter.
  - The carrier's two distinct picks and queue bindings.
  - Its `handleDelivery`: a Java `split(":")`, then a confirmation published before the ack.
- **ZooKeeper menu** (`Menu`).
  - `get_action`: Python `int()` on the input line, the range check, the exit entry and the child-name prompt.
  - The dispatch loop: an action is called with the name only when the name is non-empty. Python raises `TypeError` on an arity mismatch.
- **Calculators** (`GrpcCalculator`, `ThriftCalculator`, `IceCalculator`).
  - Java `int` add, subtract and multiply-fold, with their onNext/onCompleted replies. The gRPC and Thrift replies carry their pause lengths.
  - The Ice servant's `op` call counter.

Library behaviour the programs rely on is written out in `Strings`:
- Python `str.partition`;
- Java `String.split` with a one-character separator, which drops trailing empty fields and returns `[s]` when the separator is absent;
- decimal rendering of integers.

In `Int32`, every Java `int` result is reduced to the signed 32-bit range by `Wrap`.

The client's length gate follows the code: `len(message) <= 1024`, where the nick is not counted. It does not follow the documented limit of 1024 − len(nick) − 1.

## Model

| member | source | states |
|---|---|---|
| ChatProtocol.Format | lab1hw/constants.py:8 | `MESSAGE.format`: the nick, a `:` and the message. Its properties are stated in the rows for ChatProtocol.SplitFormat, ChatProtocol.FormatSplit and ChatProtocol.FormatIsNotInit. |
| ChatProtocol.Split | lab1hw/server.py:18 | The nick never contains `:`. When the frame has a `:`, nick + ":" + payload rebuilds the frame. Otherwise the nick is the whole frame and the payload is empty. |
| ChatProtocol.SplitFormat | lab1hw/client.py:11 | Splitting `nick:message` gives back (nick, message) if and only if the nick has no `:`. |
| ChatProtocol.FormatSplit | lab1hw/server.py:18-24 | Re-formatting a split frame restores it when it had a `:`, and appends a `:` otherwise. |
| ChatProtocol.FormatIsNotInit | lab1hw/constants.py:8-10 | Every envelope contains `:` and so is never the `INIT` handshake. |
| ChatServer.Relayed | lab1hw/server.py:18-24 | The forwarded text is the frame itself when it has a `:`, else the frame plus `:`. It is never `INIT`. |
| ChatServer.EmbeddedInitIsChat | lab1hw/server.py:12-18 | `nick:INIT` is not the handshake and is relayed unchanged: only the whole-frame literal registers. |
| ChatServer.MembersCharacterised | lab1hw/server.py:8-26 | After a trace, `c` is a member if and only if (1) it was a member and never closed, or (2) it sent `INIT` and did not close afterwards. |
| ChatServer.BroadcastExtends | lab1hw/server.py:21-24 | Serving one more member keeps the broadcast invariant: that member gets exactly one copy unless it is the sender. |
| ChatServer.Broadcast | lab1hw/server.py:21-24 | Every member except the sender receives the text, exactly once. The sender receives nothing, and no one outside the set receives it. |
| ChatServer.Relay.constructor | lab1hw/server.py:8 | The membership set starts empty. |
| ChatServer.Relay.HandleFrame | lab1hw/server.py:12-24 | `INIT` adds the connection and sends nothing; a second `INIT` changes nothing. Any other frame is broadcast to all members but the sender, registered or not. |
| ChatServer.Relay.HandleEndOfStream | lab1hw/server.py:11-26 | The connection is removed. `ok` is false exactly when it was not a member, which is where `set.remove` raises `KeyError`. |
| ChatServer.Relay.Run | lab1hw/server.py:9-26 | After a trace, the set equals the membership function over that trace. The log is, for each chat frame in turn, a broadcast of its relayed text to the members at that moment other than the sender. The `KeyError`s are exactly the end-of-stream events from connections that were not members then, in trace order. |
| ChatServer.Chunks | lab1hw/server.py:11 | Each frame read by `recv(1024)` has 1 to 1024 characters, and data of at most 1024 characters is read as one frame. |
| ChatServer.ChunksConcat | lab1hw/server.py:11 | The frames read from one write spell out exactly the data written. |
| ChatServer.MembersAppend | lab1hw/server.py:12-26 | Membership after a trace plus one event is that event applied to the membership before it. |
| ChatServer.RelayLogNeverInit | lab1hw/server.py:21-24 | Nothing the relay sends is the `INIT` handshake, and everything it sends contains `:`. |
| ChatServer.KeyErrorsFromEnds | lab1hw/server.py:26 | Every reported `KeyError` belongs to a connection that closed in the trace. |
| ChatServer.RegisteredCloseIsClean | lab1hw/server.py:15-26 | Registering and then closing raises no `KeyError` for that close. |
| ChatClient.Outgoing | lab1hw/client.py:31-34 | A line is sent if and only if it has at most 1024 characters. What is sent has length nick + 1 + line, is never `INIT`, and splits back to (nick, line) when the nick has no `:`. |
| ChatClient.Sends | lab1hw/client.py:29-32 | No more envelopes than lines, and none of them is `INIT`. |
| ChatClient.SendsAndRejectsPartition | lab1hw/client.py:31-34 | Every line is either sent or rejected as too long, never both. |
| ChatClient.SendsAllFit | lab1hw/client.py:31-32 | When every line fits, the k-th envelope is `nick:` + the k-th line. |
| ChatClient.Session | lab1hw/client.py:24-34 | `INIT` goes first, then the envelopes. One "too long" notice is printed per rejected line. |
| ChatClient.InitSentOnce | lab1hw/client.py:25-32 | `INIT` is sent exactly once, before every chat message. |
| ChatClient.LengthBoundary | lab1hw/client.py:31 | A 1024-character line is sent and a 1025-character line is not, whatever the nick. |
| ChatClient.ReceiveLoop | lab1hw/client.py:10-12 | Each received frame is shown as (nick, message), split at its first `:`. |
| ChatClient.RelayedToOthers | lab1hw/client.py:11-32 | End to end, for a nick without `:` whose whole envelope fits in one 1024-character receive: the server reads it as one frame and relays it unchanged, and every receiver shows exactly (nick, line). |
| ChatClient.LongEnvelopeIsCut | lab1hw/client.py:31-32 | A line that passes the gate but makes an envelope longer than 1024 characters reaches the server as two or more frames, the first cut after 1024 characters. |
| Weather.CheckType | lab4and5hw/I4/gRPC/WeatherServer.java:91-137 | Temperature counts if and only if at least one bound is set and every bound set holds. It signals `onError` exactly when neither bound is set. Humidity reports a missing bound exactly when `min_temperature`, `max_humidity` and one humidity bound are all absent. With both humidity bounds set, humidity counts if and only if it lies between them. With only `max_humidity` set and no `min_temperature`, it counts if and only if it is at most that bound. With `min_temperature` set and not both humidity bounds, it counts if and only if `min_humidity` (0 when unset) is at most the humidity. A set bound that fails always breaks out of the loop (`Failed`). Each missing-bound error names its own type. Other enum values are ignored. |
| Weather.ScanTypes | lab4and5hw/I4/gRPC/WeatherServer.java:89-138 | The counter never exceeds the number of types, and after a `break` it is strictly below it. |
| Weather.StaysStopped | lab4and5hw/I4/gRPC/WeatherServer.java:96-98 | After the first failing bound, the remaining types change nothing. |
| Weather.InnerCounts | lab4and5hw/I4/gRPC/WeatherServer.java:89-139 | The counter equals the number of requested types if and only if every type is satisfied. The inner loop calls only `onError`. |
| Weather.RecordEmitted | lab4and5hw/I4/gRPC/WeatherServer.java:139-143 | A record is emitted, once, exactly when every requested type is satisfied. |
| Weather.SubscribeEvents | lab4and5hw/I4/gRPC/WeatherServer.java:84-150 | The calls `subscribe` makes on its observer, record by record. Its properties are stated in the rows for Weather.SubscribeEmitsMatching, Weather.CompletedOnceAtEnd, Weather.EmptyRequestErrorsAndEmits and Weather.HumidityMinOnlyRejected. |
| Weather.SubscribeEmitsMatching | lab4and5hw/I4/gRPC/WeatherServer.java:84-150 | `subscribe` emits exactly the matching stored records, in insertion order. |
| Weather.RecordsEmitMatching | lab4and5hw/I4/gRPC/WeatherServer.java:84-149 | The outer loop's `onNext` calls carry exactly the matching records, in order. |
| Weather.CompletedOnceAtEnd | lab4and5hw/I4/gRPC/WeatherServer.java:150 | `onCompleted` is the last call and occurs nowhere else. |
| Weather.NoCompletedInRecords | lab4and5hw/I4/gRPC/WeatherServer.java:84-149 | The per-record loop never calls `onCompleted`. |
| Weather.EmptyRequestErrorsAndEmits | lab4and5hw/I4/gRPC/WeatherServer.java:85-143 | An empty type list signals `onError` and still emits the record, because 0 == 0. |
| Weather.HumidityMinOnlyRejected | lab4and5hw/I4/gRPC/WeatherServer.java:122-136 | Humidity with only `min_humidity` set (and no `min_temperature`) signals `onError` and emits nothing. |
| Weather.HumidityGuardedByMinTemperature | lab4and5hw/I4/gRPC/WeatherServer.java:122-127 | With `min_temperature` set and the humidity bounds incomplete, humidity compares `min_humidity` (0 when unset) and ignores `max_humidity`. |
| Weather.WeatherService.constructor | lab4and5hw/I4/gRPC/WeatherServer.java:72-80 | The store is the given collection followed by Poland, Germany and Spain, in that order. |
| Weather.WeatherService.Subscribe | lab4and5hw/I4/gRPC/WeatherServer.java:83-151 | The observer calls are exactly those of the specification function over the stored records. |
| Weather.CountSatisfied | lab4and5hw/I4/gRPC/WeatherServer.java:89-138 | The inner loop's `onError` calls and counter are those of the scan over the requested types, `break` included. |
| PyList.Resolve | lab2/task1/polls.py:74 | An index is valid if and only if it lies in [-len, len). A valid index addresses itself, or len + index when negative. |
| PyList.At | lab2/task1/polls.py:74 | `s[i]` returns the addressed element, and raises `IndexError` exactly outside [-len, len). |
| PyList.Assign | lab2/task1/polls.py:79 | `s[i] = x` changes the addressed position only, and raises `IndexError` outside the range. |
| PyList.Pop | lab2/task1/polls.py:85 | `s.pop(i)` returns the addressed element and shifts the later ones down by one. |
| PyList.PopReinsert | lab2/task1/polls.py:85 | Inserting a popped element back where it was restores the list. |
| PyList.AssignThenAt | lab2/task1/polls.py:79-80 | Reading back an assigned position gives the assigned value. |
| Polls.NewAnswer | lab2/task1/polls.py:36-39 | A new answer has count 0. |
| Polls.AnswersOf | lab2/task1/polls.py:88-90 | The answers of the addressed poll, or `IndexError`. |
| Polls.AppendAnswer | lab2/task1/polls.py:93-96 | Only the addressed poll changes, by one answer at the end. The new answer list is returned. |
| Polls.Recount | lab2/task1/polls.py:104-113 | Exactly one counter changes, by exactly the given step and with no lower bound. Everything else is unchanged. |
| Polls.VoteThenUnvote | lab2/task1/polls.py:104-113 | A vote followed by an unvote of the same answer restores the store. |
| Polls.PollStore.constructor | lab2/task1/polls.py:48-58 | The store starts with the two sample polls, every count 0. |
| Polls.PollStore.GetPolls | lab2/task1/polls.py:61-63 | Returns the whole list. |
| Polls.PollStore.PostPoll | lab2/task1/polls.py:66-69 | Appends at the end: length + 1, earlier entries unchanged, the poll returned. |
| Polls.PollStore.GetPoll | lab2/task1/polls.py:72-74 | Python indexing of the list; `IndexError` exactly outside [-len, len). |
| Polls.PollStore.PutPoll | lab2/task1/polls.py:77-80 | Replaces only the addressed poll and returns it; on `IndexError` the list is unchanged. |
| Polls.PollStore.DeletePoll | lab2/task1/polls.py:83-85 | Removes and returns the addressed poll, shifting later ones down; on `IndexError` nothing changes. |
| Polls.PollStore.GetVotes | lab2/task1/polls.py:88-90 | The addressed poll's answers, or `IndexError`. |
| Polls.PollStore.PostVote | lab2/task1/polls.py:93-96 | Appends the answer to that poll only and returns its answers; on `IndexError` nothing changes. |
| Polls.PollStore.GetVote | lab2/task1/polls.py:99-101 | The addressed answer's count, or `IndexError` when either index is out of range. |
| Polls.PollStore.PutVote | lab2/task1/polls.py:104-107 | One more vote on the addressed answer and nothing else; the new count is returned. |
| Polls.PollStore.DeleteVote | lab2/task1/polls.py:110-113 | One vote less, possibly below zero, and nothing else changes. |
| Polls.PollStore.ChangeCount | lab2/task1/polls.py:104-113 | The shared `cnt += step` body: exactly the recount, or no change on `IndexError`. |
| Int32.Wrap | lab5/gRPC/src/sr/grpc/server/CalculatorImpl.java:13 | A Java `int` result lies in the 32-bit range and is congruent to the exact value modulo 2^32. |
| Int32.WrapCongruent | lab5/gRPC/src/sr/grpc/server/CalculatorImpl.java:38 | Values congruent modulo 2^32 give the same `int`. |
| Int32.WrapIdentity | lab4/Thrift/src/sr/hw/server/CalculatorHandler.java:24 | Without overflow, Java arithmetic is exact. |
| Int32.WrapMulLeft | lab5/gRPC/src/sr/grpc/server/CalculatorImpl.java:37-39 | Wrapping the running product at each step gives the same result as wrapping once at the end. |
| Int32.IncrementOverflows | lab1/task3/server/JavaUdpServer.java:25 | 2^31 − 1 plus one is −2^31. |
| Int32.WrapOverflow | lab4/Thrift/src/sr/hw/server/CalculatorHandler.java:24 | One `+` or `-` of two ints that overflows comes back exactly 2^32 lower, or 2^32 higher when below the range. |
| IntCodec.FromBytes | lab1/task3/client/PythonUdpClient.py:12 | The unsigned little-endian value of n bytes is below 256^n. |
| IntCodec.ToBytes | lab1/task3/client/PythonUdpClient.py:5 | Succeeds if and only if 0 <= n < 256^length, and then decodes back to n; otherwise `OverflowError`. |
| IntCodec.UnsignedBytes | lab1/task3/client/PythonUdpClient.py:5 | Exactly `length` bytes. |
| IntCodec.FromUnsignedBytes | lab1/task3/client/PythonUdpClient.py:5-12 | Decoding the unsigned encoding of n gives n. |
| IntCodec.UnsignedBytesOfFromBytes | lab1/task3/client/PythonUdpClient.py:5-12 | Encoding the value of a byte string gives the byte string back. |
| IntCodec.EncodeInt32 | lab1/task3/server/JavaUdpServer.java:26 | The encoding is exactly 4 bytes. |
| IntCodec.DecodeInt32 | lab1/task3/server/JavaUdpServer.java:22 | The first four bytes decode to a value in the signed 32-bit range. |
| IntCodec.DecodeEncode | lab1/task3/server/JavaUdpServer.java:22-26 | Decoding the encoding of any 32-bit n gives n. |
| IntCodec.EncodeDecode | lab1/task3/server/JavaUdpServer.java:22-26 | Encoding the decoding of any 4 bytes gives them back. |
| IncrementServer.Received | lab1/task3/server/JavaUdpServer.java:15-20 | The buffer holds the datagram (cut to 1024 bytes) followed by zeros. |
| IncrementServer.Reply | lab1/task3/server/JavaUdpServer.java:22-26 | The reply is 4 bytes and decodes to the received value plus one, wrapped to 32 bits. |
| IncrementServer.ShortDatagramPadded | lab1/task3/server/JavaUdpServer.java:18-22 | A datagram shorter than 4 bytes reads as if padded with zeros. |
| IncrementServer.MaxIntWraps | lab1/task3/server/JavaUdpServer.java:25-26 | 2^31 − 1 is answered with −2^31. |
| IncrementServer.UdpServer.constructor | lab1/task3/server/JavaUdpServer.java:15 | A fresh 1024-byte buffer. |
| IncrementServer.UdpServer.Serve | lab1/task3/server/JavaUdpServer.java:17-29 | After zero-filling and receiving, the buffer holds the received contents and the reply is the wrapped increment. |
| IncrementClient.RequestBytes | lab1/task3/client/PythonUdpClient.py:5 | `(300).to_bytes(4, 'little')` is `[0x2C, 0x01, 0x00, 0x00]`. |
| IncrementClient.ClientReadsIncrement | lab1/task3/client/PythonUdpClient.py:5-12 | Against the server, the client reads 301. |
| IncrementClient.UnsignedReadingOfSigned | lab1/task3/client/PythonUdpClient.py:12 | The client's unsigned reading of a 4-byte reply equals the server's signed value, plus 2^32 when that value is negative. |
| Strings.FindFrom | lab1/task4/server/PythonUdpServer.py:13 | The first occurrence of the separator at or after `from`, or none. |
| Strings.Partition | lab1hw/server.py:18 | `str.partition`: the three parts concatenate to the input; the split is at the first occurrence; (s, "", "") when the separator is absent. |
| Strings.PartitionAtChar | lab1hw/client.py:11 | Partitioning `a:b` at `:`, with no `:` in `a`, gives back `a` and `b`. |
| Strings.PartitionHeadHasNoSep | lab1hw/server.py:18 | The head of a partition never contains the separator. |
| Strings.SplitAll | lab6hw/Carrier.java:59 | The pieces between separators: at least one, none containing the separator. |
| Strings.SplitJoin | lab6hw/Carrier.java:59 | Splitting the join of separator-free fields gives the fields back. |
| Strings.DropTrailingEmpty | lab6hw/Carrier.java:59 | Removes exactly the trailing empty fields. |
| Strings.JavaSplit | lab6hw/Carrier.java:59 | `String.split(":")`: no field contains `:`; a string without `:` gives `[s]`. |
| Strings.JavaSplitJoin | lab6hw/Carrier.java:59 | Splitting a join of two or more `:`-free fields, the last non-empty, gives the fields back. |
| Strings.NatToString | lab6hw/Agency.java:74 | Decimal digits, at least one, with no leading zero. |
| Strings.DigitsValueOfNatToString | lab6hw/Agency.java:74 | Reading the decimal rendering back gives the number. |
| PingPong.AfterIsPartitionTail | lab1/task4/server/PythonUdpServer.py:13 | The text tested is exactly `partition(sep)[2]`. |
| PingPong.AfterNonEmpty | lab1/task4/server/PythonUdpServer.py:13-15 | That text is non-empty if and only if the first occurrence of the separator does not end the message. |
| PingPong.Classify | lab1/task4/server/PythonUdpServer.py:13-18 | "Pong Java" if and only if text follows `JAVA: `. Otherwise "Pong Python" if and only if text follows `PYTHON: `. Otherwise the ValueError. |
| PingPong.NotContained | lab1/task4/server/PythonUdpServer.py:13-15 | A separator with a character the message lacks does not occur in it. |
| PingPong.JavaAnywhere | lab1/task4/server/PythonUdpServer.py:13-14 | `JAVA: ` anywhere, with text after its first occurrence, gives "Pong Java", whatever else the message holds. |
| PingPong.PythonPing | lab1/task4/client-python/PythonUdpClient.py:5 | `PYTHON: Ping` is answered with "Pong Python". |
| PingPong.NoSpaceRejected | lab1/task4/server/PythonUdpServer.py:13-18 | `JAVA:Ping` matches neither separator and raises. |
| PingPong.EmptyJavaTextFallsThrough | lab1/task4/server/PythonUdpServer.py:13-16 | A message whose only `JAVA: ` ends it falls through to the PYTHON test. |
| PingPong.RaisedStays | lab1/task4/server/PythonUdpServer.py:10-18 | After the first ValueError, later datagrams change nothing. |
| PingPong.RunAnswersInOrder | lab1/task4/server/PythonUdpServer.py:10-18 | Datagrams are answered in order, each with its classification, up to the first that raises, and the loop stops there. |
| PingPong.Run | lab1/task4/server/PythonUdpServer.py:10-18 | The replies of the receive loop, up to the first `ValueError`. Its properties are stated in the rows for PingPong.RunAnswersInOrder and PingPong.RaisedStays. |
| PingPong.Serve | lab1/task4/server/PythonUdpServer.py:10-18 | The replies and the raised flag are those of the session function. |
| DeliverySettings.DeliveryTypesHaveNoColon | lab6hw/Settings.java:9 | No delivery type is empty or contains `:`. |
| DeliverySettings.OrderRoutingKey | lab6hw/Agency.java:74 | `agency.delivery.type`. Which carrier bindings it matches is stated in the DeliverySettings.OrderReachesCarrier row. |
| DeliverySettings.ConfirmationRoutingKey | lab6hw/Carrier.java:61 | `carrier.confirmation.agency`. Which agency binding it matches is stated in the DeliverySettings.ConfirmationReachesAgency row. |
| DeliverySettings.OrderBody | lab6hw/Agency.java:74 | `orderNo:agency:type`. That the carrier splits it back into these three fields is stated in the Carrier.ParsesAgencyBody row, and the numbering in the Agency.OrdersNumbered row. |
| DeliverySettings.KeysAgree | lab6hw/Agency.java:55-74 | Each routing key is spelled as its binding key with the leading `*` replaced by the sender's name. This covers order keys against the carrier bindings (Carrier.java:48,52) and confirmation keys against the agency binding. Whether the keys match is stated by `OrderReachesCarrier` and `ConfirmationReachesAgency`. |
| DeliverySettings.OrderReachesCarrier | lab6hw/Carrier.java:48-52 | For `.`-free names, an order for type `t` matches the carrier binding for type `u` if and only if `u` is `t` or `*`. |
| DeliverySettings.ConfirmationReachesAgency | lab6hw/Agency.java:55 | For `.`-free names, a confirmation addressed to agency `b` matches agency `a`'s binding if and only if `a` is `b` or `*`. |
| DeliverySettings.WildcardFirstWordMatches | lab6hw/Carrier.java:48-52 | The binding `*.middle.w` matches the key `x.middle.y` if and only if `w` is `y` or `*`: the leading `*` accepts any sender. |
| DeliverySettings.ThreeWords | lab6hw/Agency.java:74 | A key built as `a.middle.b` from `.`-free parts splits into exactly those three words. |
| Agency.Read | lab6hw/Agency.java:61-77 | No more types are ordered than lines are read. |
| Agency.StaysExited | lab6hw/Agency.java:65-67 | After `exit`, later lines order nothing. |
| Agency.ExitedIffExitLine | lab6hw/Agency.java:65-67 | The loop ends early if and only if some line is `exit`. |
| Agency.PicksAreDeliveryTypes | lab6hw/Agency.java:68-71 | Only valid delivery types are ordered. |
| Agency.ValidLineOrdered | lab6hw/Agency.java:68-76 | Before `exit`, a valid delivery type is appended to the ordered types, and the loop goes on. |
| Agency.SkipsUnknownLine | lab6hw/Agency.java:68-71 | An unknown type publishes nothing and leaves the counter unchanged. |
| Agency.Orders | lab6hw/Agency.java:74 | One publication per ordered type. |
| Agency.OrdersNumbered | lab6hw/Agency.java:60-76 | The k-th publication is routed to `agency.delivery.type` with body `(k+1):agency:type`: numbers 1, 2, 3, … with no gaps. |
| Agency.OrderLoop | lab6hw/Agency.java:60-77 | The publications are the orders for the valid types read before `exit`. `orderNo` is one more than their number, and `exited` reports whether `exit` was read. |
| Carrier.InputDeliveryType | lab6hw/Carrier.java:9-20 | Returns the first line that is a valid type different from the earlier pick. Every line before it was refused. `None` means every line was refused. It reads exactly up to the first line not refused. |
| Carrier.FirstPick | lab6hw/Carrier.java:9-20 | The position of the first line that is neither the earlier pick nor an unknown type, or none when every line is refused. |
| Carrier.Choose | lab6hw/Carrier.java:31-35 | The two picks of `main`: the first accepted line, then the first later line accepted that differs from it, or none. Its properties are stated in the rows for Carrier.ChooseDeliveryTypes and Carrier.TwoDistinctTypesSuffice. |
| Carrier.ChooseDeliveryTypes | lab6hw/Carrier.java:32-52 | The picks are the first accepted line and then the first later line accepted that differs from it. `None` means the input ran out before two such lines. The two picks are distinct valid types, and the queues are bound with `*.delivery.` + each pick. |
| Carrier.TwoDistinctTypesSuffice | lab6hw/Carrier.java:32-35 | Any input holding two different valid types, in either order, lets the carrier finish choosing. |
| Carrier.HandleDelivery | lab6hw/Carrier.java:59-62 | Succeeds if and only if the split has at least 3 fields. It then publishes `carrier.confirmation.` + field 1 with body "Order " + field 0 + " confirmed.", then acks. |
| Carrier.ParsesAgencyBody | lab6hw/Carrier.java:59-60 | An agency body, for a name without `:`, splits into exactly (orderNo, agency, type). |
| Carrier.Confirmation | lab6hw/Carrier.java:61 | The body `Order <number> confirmed.`. What is confirmed, and to whom, is stated in the rows for Carrier.ConfirmsAgencyOrder and Carrier.ConfirmsEveryPublishedOrder. |
| Carrier.ConfirmsAgencyOrder | lab6hw/Carrier.java:59-62 | Such an order is confirmed to its own agency under its own number. |
| Carrier.ShortBodyRejected | lab6hw/Carrier.java:59-62 | A body with at most one `:` (between `:`-free parts) fails, so nothing is published or acked. |
| Carrier.ConfirmsEveryPublishedOrder | lab6hw/Carrier.java:59-62 | End to end: the k-th order an agency publishes is confirmed to that agency as order k + 1. |
| Menu.TrimLeftFacts | lab7hw/main.py:81 | Leading whitespace removed: the result is a suffix of the input, only whitespace was dropped, and the result starts with a non-space. |
| Menu.TrimRightFacts | lab7hw/main.py:81 | Trailing whitespace removed, symmetrically. |
| Menu.ReadDigitsFacts | lab7hw/main.py:81 | A run of characters is read as a number if and only if it is a non-empty run of digits, and then its value is the decimal value. |
| Menu.ParseInt | lab7hw/main.py:81 | Python `int()` on one line: optional surrounding ASCII whitespace, an optional sign and ASCII decimal digits, otherwise `ValueError` (`None`). Its properties are stated in the rows for Menu.ParseIntCharacters and Menu.ParseIntOfIntToString. |
| Menu.ParseIntCharacters | lab7hw/main.py:81 | A line `int()` accepts holds only whitespace, digits and signs, and at least one digit. |
| Menu.ParseIntOfIntToString | lab7hw/main.py:81 | `int()` reads back any printed integer, even with whitespace around it. |
| Menu.LastChildIndex | lab7hw/main.py:70-74 | The last index whose action name ends with `child`, or -1 when there is none. |
| Menu.CreateChildIndex | lab7hw/main.py:70-74 | The enumerate loop computes exactly that index. |
| Menu.ZnodeChildIndex | lab7hw/main.py:97-102 | For the four actions, the child index is 2 (`create_znode_child`). |
| Menu.GetAction | lab7hw/main.py:69-93 | The chosen line is the first accepted one; every earlier line was rejected (not an integer, or outside 0..len). `len(actions)` exits. Another valid index returns (action, None). The child index reads the next line as the name. End of input reads every line. |
| Menu.FirstAccepted | lab7hw/main.py:78-88 | The first line `get_action` accepts: every earlier line is rejected and the line itself is accepted, or no line is accepted. |
| Menu.NextChoice | lab7hw/main.py:78-93 | A returned action is a menu index, read after at least one line. Only the child action comes with a name. Exit follows a line reading `len(actions)`. |
| Menu.Passed | lab7hw/main.py:113 | A name is passed if and only if it is non-empty. |
| Menu.Dispatch | lab7hw/main.py:113-116 | The call succeeds if and only if the argument count fits the action's signature, and it passes the name only when non-empty. Otherwise `TypeError`. |
| Menu.ChildNamePassed | lab7hw/main.py:113-114 | A non-empty name reaches `create_znode_child`. |
| Menu.EmptyChildNameRaises | lab7hw/main.py:113-116 | An empty name calls `create_znode_child()`, which raises `TypeError`. |
| Menu.OtherActionsTakeNoName | lab7hw/main.py:115-116 | The other three actions are called without arguments, so the call raises no arity `TypeError`. What the ZooKeeper calls inside them raise is not modelled. |
| Menu.MainLoop | lab7hw/main.py:109-116 | The calls and the ending are exactly those of the session function. Every call is to a valid action and fits its signature. Only the child action gets an argument, and only a non-empty one. The loop exits only after an input equal to `len(actions)`. |
| Menu.DialogueFacts | lab7hw/main.py:109-116 | In any session, every call is to a menu action and fits its signature. Only the child action gets an argument, and only a non-empty one. Exit happens only after a line reading `len(actions)`. |
| Menu.DialogueCallsFit | lab7hw/main.py:109-116 | A session makes at most one call per input line. Every call is to a menu action and fits its signature. Only the child action gets an argument, and only a non-empty one. |
| Menu.DialogueExitsOnExitLine | lab7hw/main.py:109-112 | A session ends by exiting only if some line reads `len(actions)`. |
| Menu.DialogueAdvance | lab7hw/main.py:109-116 | After one dispatched choice, the calls made so far followed by the rest of the session still make up the whole session. |
| Menu.DialogueStep | lab7hw/main.py:110-116 | A dispatched choice contributes its call, and the session continues on the lines after it. |
| Menu.DialogueStop | lab7hw/main.py:110-112 | The exit entry, the end of input or a `TypeError` ends the session with no further call, and with that ending. |
| Menu.ExitEndsDialogue | lab7hw/main.py:82-112 | A first line reading `len(actions)` ends the session at once, with no call. |
| GrpcCalculator.Add | lab5/gRPC/src/sr/grpc/server/CalculatorImpl.java:9-18 | One `onNext` with the wrapped 32-bit sum, then `onCompleted`. It pauses 5 s exactly when both arguments exceed 100. |
| GrpcCalculator.Subtract | lab5/gRPC/src/sr/grpc/server/CalculatorImpl.java:21-29 | One `onNext` with the wrapped 32-bit difference, then `onCompleted`, with no pause. |
| GrpcCalculator.AddDelayIrrelevant | lab5/gRPC/src/sr/grpc/server/CalculatorImpl.java:13-16 | The pause does not affect the result. |
| GrpcCalculator.AddOverflow | lab5/gRPC/src/sr/grpc/server/CalculatorImpl.java:13 | A sum above the `int` range is answered 2^32 lower, and one below it 2^32 higher. For example, 2^31 − 1 plus 1 answers −2^31. |
| GrpcCalculator.ProductAppend | lab5/gRPC/src/sr/grpc/server/CalculatorImpl.java:36-39 | The product of a concatenation is the product of the products. |
| GrpcCalculator.ProductRemove | lab5/gRPC/src/sr/grpc/server/CalculatorImpl.java:36-39 | Taking out one factor divides the product by it. |
| GrpcCalculator.ProductPermutation | lab5/gRPC/src/sr/grpc/server/CalculatorImpl.java:36-39 | The product does not depend on the order of the factors. |
| GrpcCalculator.Multiply | lab5/gRPC/src/sr/grpc/server/CalculatorImpl.java:32-43 | One `onNext` with the product of all arguments, wrapped to 32 bits, then `onCompleted`. |
| GrpcCalculator.MultiplyEmpty | lab5/gRPC/src/sr/grpc/server/CalculatorImpl.java:36 | Multiplying no numbers answers 1. |
| GrpcCalculator.MultiplyOrderIndependent | lab5/gRPC/src/sr/grpc/server/CalculatorImpl.java:36-39 | Reordering the arguments does not change the answer. |
| ThriftCalculator.Add | lab4/Thrift/src/sr/hw/server/CalculatorHandler.java:18-25 | The wrapped 32-bit sum, exact without overflow. It pauses 6 s when an argument exceeds 1000, and not at all otherwise. |
| ThriftCalculator.Subtract | lab4/Thrift/src/sr/hw/server/CalculatorHandler.java:28-35 | The wrapped 32-bit difference, exact without overflow, with the same pause rule. |
| ThriftCalculator.AddCommutative | lab4/Thrift/src/sr/hw/server/CalculatorHandler.java:24 | `add` is commutative, pause included. |
| ThriftCalculator.SubtractUndoesAdd | lab4/Thrift/src/sr/hw/server/CalculatorHandler.java:24-34 | Subtracting n2 from `add(n1, n2)` gives n1 back, even across overflow. |
| ThriftCalculator.ResultIgnoresId | lab4/Thrift/src/sr/hw/server/CalculatorHandler.java:11-15 | The results do not depend on the handler's `id`, which is fixed at construction. |
| IceCalculator.CalcI.constructor | lab4/Ice/src/sr/ice/server/CalcI.java:19 | The counter starts at 0. |
| IceCalculator.CalcI.Add | lab4/Ice/src/sr/ice/server/CalcI.java:22-34 | `a + b` is wrapped to 32 bits before widening, so the long result stays in the `int` range. It is exact without overflow. |
| IceCalculator.CalcI.Subtract | lab4/Ice/src/sr/ice/server/CalcI.java:37-49 | `a - b` likewise. |
| IceCalculator.CalcI.Op | lab4/Ice/src/sr/ice/server/CalcI.java:53-56 | The counter increases by exactly one, and the logged value is the new count. |
| IceCalculator.AddWrapsBeforeWidening | lab4/Ice/src/sr/ice/server/CalcI.java:33 | A sum past either end of the `int` range comes back 2^32 away, not as the widened `long` sum. For example, `add(2^31 − 1, 1)` is −2^31. |

## Left out

- Sockets, threads and framing: handler events form one sequential trace of the frames `recv` returns. How TCP splits or merges writes is modelled only for one envelope written alone (`ChatServer.Chunks`, where every receive takes as much as is waiting). Concurrent access to `clients` is not modelled.
- ChatClient.RelayedToOthers: promises intact delivery only for envelopes of at most 1024 characters. A longer envelope is cut, as `ChatClient.LongEnvelopeIsCut` states.
- The unicast/multicast relay and the `U`/`M`/ASCII-art constants: no shown code uses them.
- Character encodings (utf-8, cp1250): messages are sequences of characters.
- Console output: prompts and notices. The chat client's "too long" notice and the broker-side strings are kept because their content is specified.
- ChatServer.Relay.Run: a `KeyError` ends that connection's handler thread. The model records the connection and goes on with the trace. Only events of other connections can follow an end-of-stream, so the membership set is the same.
- Weather: the random 5–10 s `Thread.sleep` before each `onNext` is not modelled. Neither is what the gRPC runtime does with calls made after `onError`: the model lists the calls the code makes.
- Weather: the server bootstrap, shutdown hooks, and the C++ client and server.
- Polls: FastAPI routing, request validation and the path-parameter naming at lines 104 and 110. Only the handler bodies are modelled.
- Polls: answers and polls are values, so aliasing between Python objects is not captured. This matters when the same posted object is appended twice.
- Calculators: logging, the Ice context check and `__current.id` printing, which do not affect results.
- Calculators: `Thread.sleep` is kept only as the pause length in each gRPC and Thrift reply. The Ice servant's sleeps (6 s in `add`/`subtract` for an argument over 1000, 500 ms in `op`) are not modelled at all.
- Calculators: `avg` in the Thrift and Ice calculators, because it is floating point.
- IceCalculator.CalcI.Op: the counter is an unbounded integer; Java's `long` would wrap after 2^63 − 1 calls.
- Agency.OrderLoop: the order number is an unbounded natural; Java's `int` would wrap after 2^31 − 1 orders.
- Agency.OrderLoop: running out of input ends the loop with `exited` false, where Java's `readLine` returns null and the next call throws.
- Carrier.InputDeliveryType: likewise, end of input is reported as `None` instead of an exception.
- RabbitMQ: connections, exchanges and delivery. Only the keys and bodies the programs build are modelled. Topic matching is modelled only for `*` and literal words (the programs use no `#`), and it is proved only for names without `.`. Names containing `.` change the number of words, and the model states nothing about them. The agency's confirmation consumer only prints and acks.
- ZooKeeper: node creation and deletion, watchers and the `mspaint` subprocess. Actions are identified by index and signature; what they do to ZooKeeper is not modelled.
- Menu.GetAction: end of input is reported as `EndOfInput`, standing for Python's `EOFError`.
- Python `int()`: underscores between digits, non-ASCII whitespace and non-ASCII digits are not modelled. The model accepts ASCII whitespace, an optional sign and ASCII digits.
