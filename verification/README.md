# Verification model of an event-driven networking library with an MQTT codec

The modules here model the parts of the library that carry state across calls, and prove what its
callers rely on. Code that works by changing objects is a class with the same fields; each class is
proved against a reference definition on values, and the theorems are about those definitions.

## The MQTT codec

* `Packets`, `Bytes`: the content of the fourteen message types and what `to_string` writes for them,
  with 16-bit and 32-bit cuts where the code has them.
* `Fields`: the parsers as one reference definition, which reads a message field by field from a whole
  input. `Updates`: the contract of every resumable `update`.
* `MqttHeader`, `MqttConnect`, `MqttPublish`, `MqttConnack`, `MqttAck`, `MqttSubscribe`, `MqttSuback`,
  `MqttUnsubscribe`: the classes, with their partial buffers and state handlers. Every handler takes
  what the input has; every `update` computes the reference parser on any cut of the input.
* `MqttMessage`, `MqttClient`: the factory and the loop that drains a read.
* `Framing`: cuts of the input make no difference. `RoundTrip`: printing and parsing undo each other.
  `Limits`: exactly when they do, and what happens otherwise. `Outcomes`: what the parsers make of bytes that
  no printer wrote. `Wire`: printed messages in the numbers of the standard.

## The event engine

* `Registration`: what a registration call does to one file, at once or deferred, and the theorem that
  the two agree. `History`: callbacks, results and masks, read off the list of calls. `Batching`: the calls of
  the back end, of which deferring makes no more. `NioEvent`: the engine with its ring
  (`NioRing`) and its file records (`NioFile`). `NioRun`: whole runs of an engine.
* `NioPoll`, `NioSelect`, `NioEpoll`, `NioKqueue`: the four representations of the same interest sets;
  `NioBackend` is the table of function pointers.

## Hash table, timers, outgoing bytes

* `NioHtable` (with `NioHash`, `Walks` and `Sizes`): a chained table that refines a map while it grows in place.
* `Timers`, `NioTimers`: the multimap of timers refines one deadline for every armed timer. `Sequences` has what
  timers and rings share.
* `Outgoing`, `EventProc`: the stream of bytes that the kernel takes in pieces.

## Where the code departs from what it promises

The code is modelled as it is. Where a property that one would expect fails, it is stated with the exact
condition under which it holds:

* The keep-alive of CONNECT is read one byte too late (`Limits.KeepAliveIff`, `Limits.ArrivesAsSentIff`).
* A PUBLISH at QoS 0 with an empty payload never ends (`Limits.EmptyPublishStuck`), and UNSUBSCRIBE glues
  its topics together (`Limits.UnsubscribeTwoTopics`); `Limits.RoundTripIff` says which messages survive.
* A CONNECT with an empty will topic closes the connection (`Outcomes.ConnectRefusedIff`), and its protocol name
  and level are not looked at (`RoundTrip.ConnectReads`).
* A refused subscription is delivered as QoS 0 (`Outcomes.SubackOutcome`).
* A write that the kernel would block sends the byte in front of the data as well (`Outgoing.ConservedIff`).
* `client_socket::write_callback` reports a finished write exactly when it is not finished
  (`EventProc.Channel.WriteCallback`).
* A write that returns -1 may have taken its data all the same (`Outgoing.PromisedIff`), and then what the kernel
  took is never reported (`Outgoing.ReportedIff`).
* A timer that is added twice cannot be deleted (`Timers.DisarmedIff`).
* `nio_event::wait` sleeps past a first deadline that is less than a millisecond away (`Timers.SleepsInTimeIff`),
  and may wake early when it is more than two seconds away (`Timers.SleepsFullyIff`).
* The kqueue back end would count a file twice that is registered for reading twice, which nio_event.c never
  asks for (`NioKqueue.Kqueue.AddRead`).

## Model

| member | source | states |
|---|---|---|
| `Limits.ArrivesAsSentIff` | cpp/src/mqtt/mqtt_message.cpp:34-131 | The whole law, for all fourteen types: the receiver ends with the very message that was sent and with nothing left over, if and only if the message meets Survives and, for CONNECT, both bytes of the keep-alive and the byte behind the buffer are equal. |
| `Limits.ParseKeepsAlive` | cpp/src/mqtt/mqtt_connect.cpp:267-404 | No handler behind the variable header of CONNECT changes the keep-alive. |
| `Limits.RoundTripIff` | cpp/src/mqtt/mqtt_message.cpp:34-131 | Keep-alive apart, a message that to_string accepts arrives at the other side as it was sent, with nothing left over, if and only if it meets Survives: every string fits its length field, QoS values are at most 2, no flag announces a missing field, PUBLISH at QoS 0 has a payload and no packet id, UNSUBSCRIBE has one topic. For all fourteen types. |
| `RoundTrip.PipelinedRoundTrip` | cpp/src/mqtt/mqtt_client.cpp:31-128 | Any list of surviving messages, printed one behind the other and cut into reads in any way, is delivered completely and in order, keep-alives as the code reads them, and the connection is idle afterwards. |
| `Limits.PipelinedAsSentIff` | cpp/src/mqtt/mqtt_client.cpp:31-128 | The whole law of the pipeline: in any cut, the log is exactly the list of messages sent, with nothing pending, if and only if the keep-alive of every CONNECT among them happens to arrive. |
| `Framing.FragmentationInvariance` | cpp/src/mqtt/mqtt_client.cpp:54-128 | For arbitrary bytes and from any state: delivered messages, verdict and remaining state depend only on the concatenation of the reads. |
| `Framing.ParseAppend` | cpp/src/mqtt/mqtt_connect.cpp:188-404 | Reading a then b is reading a followed by b, for the header and every message, wherever the cut falls. |
| `Framing.PendingStays` | cpp/src/mqtt/mqtt_connect.cpp:188-205 | A parser that waits keeps exactly the bytes it needs to go on. |
| `Framing.DrainAppend` | cpp/src/mqtt/mqtt_client.cpp:72-128 | The drain loop on two reads and on their concatenation ends in the same session, over message borders, errors and refusing handlers. |
| `Framing.DrainStable` | cpp/src/mqtt/mqtt_client.cpp:54-66 | A session that a read leaves open does not change while nothing arrives. |
| `Limits.RemainingLengthExact` | cpp/src/mqtt/mqtt_connect.cpp:107-168 | The remaining length written equals the number of body bytes appended if and only if the bytes dropped (strings whose length is a positive multiple of 65536, an announced payload that is missing) are just those that the cut to 32 bits takes from the sum; for a sum below 2 to the 32, if and only if none is dropped. All message types. |
| `Limits.BodySize` | cpp/src/mqtt/mqtt_subscribe.cpp:46-79 | The body is shorter than the summed length by exactly the bytes dropped. |
| `Limits.ParseFits` | cpp/src/mqtt/mqtt_publish.cpp:111-267 | A message object that starts to read with nothing that does not fit delivers strings of at most 65535 bytes (topics of UNSUBSCRIBE apart, which grow) and QoS values of at most 2, and has consumed exactly as many bytes as its parts account for. |
| `Limits.BodyFits` | cpp/src/mqtt/mqtt_message.cpp:77-131 | Every object that the factory makes, from any header, starts that way. |
| `Limits.DeliveredFit` | cpp/src/mqtt/mqtt_client.cpp:31-128 | From any bytes in any cut, every message in the log has strings of at most 65535 bytes (topics of UNSUBSCRIBE apart) and QoS values of at most 2; a PUBLISH fills exactly the length that its own header announced (in 32-bit arithmetic at QoS 0) unless that is 0, a SUBSCRIBE exceeds it by at most 65535 bytes and a SUBACK by at most two. |
| `Limits.DrainFits` | cpp/src/mqtt/mqtt_client.cpp:72-128 | The same from any state of a reader. |
| `Limits.KeepAliveIff` | cpp/src/mqtt/mqtt_connect.cpp:207-265 | The keep-alive of CONNECT is read from buff_[9] and the byte behind the buffer; it arrives as sent exactly when its two bytes are equal and the byte behind equals them (section 3.1.2.10 of MQTT 3.1.1 asks for buff_[8] and buff_[9]). |
| `Limits.DefaultKeepAliveLost` | cpp/src/mqtt/mqtt_connect.cpp:207-265 | A keep-alive of 300 never arrives. |
| `Limits.EmptyPublishStuck` | cpp/src/mqtt/mqtt_publish.cpp:171-196 | A PUBLISH at QoS 0 without payload is never finished: it waits, and the first byte of the next message is an error. |
| `Limits.UnsubscribeTwoTopics` | cpp/src/mqtt/mqtt_unsubscribe.cpp:188-215 | Because topic_ is not cleared, two topics a and b of UNSUBSCRIBE arrive as a and ab, for all a and b. |
| `Limits.UnsubscribeThreeTopics` | cpp/src/mqtt/mqtt_unsubscribe.cpp:188-215 | With three topics, the sizes of the first and third decide whether the message ends at its end, is refused, or ends early so that its rest is taken for the next message. |
| `Limits.ParseGluedTopic` | cpp/src/mqtt/mqtt_unsubscribe.cpp:150-215 | What one topic of UNSUBSCRIBE does to the reader, for any topics before it and any length. |
| `Limits.ConnectSurvives` | cpp/src/mqtt/mqtt_connect.cpp:107-168 | Only-if half for CONNECT: with a string cut or a flag without its field, the message does not arrive. |
| `Limits.PublishSurvives` | cpp/src/mqtt/mqtt_publish.cpp:61-97 | Only-if half for PUBLISH. |
| `Limits.SubscribeSurvives` | cpp/src/mqtt/mqtt_subscribe.cpp:53-90 | Only-if half for SUBSCRIBE and SUBACK. |
| `Limits.UnsubscribeSurvives` | cpp/src/mqtt/mqtt_unsubscribe.cpp:51-92 | Only-if half for UNSUBSCRIBE: with more than one topic it never arrives. |
| `Limits.AckSurvives` | cpp/src/mqtt/mqtt_ack.cpp:10-101 | Only-if half for the acknowledgements: PUBREL arrives with the flags it must have. |
| `RoundTrip.BodyRoundTrip` | cpp/src/mqtt/mqtt_message.cpp:77-131 | The object created for a printed message reads its body back, field for field, and stops exactly at its end; all fourteen types. |
| `RoundTrip.ParseConnect` | cpp/src/mqtt/mqtt_connect.cpp:207-404 | CONNECT for every combination of will, user name and password and every flag byte: client id, will topic and message, user name, password and flags come back in the order of section 3.1.3 of MQTT 3.1.1. |
| `RoundTrip.ParsePublish` | cpp/src/mqtt/mqtt_publish.cpp:139-267 | PUBLISH: topic, packet id (when the QoS asks for one) and payload come back. |
| `RoundTrip.ParseSubscribe` | cpp/src/mqtt/mqtt_subscribe.cpp:111-239 | SUBSCRIBE: all topics with their QoS values come back, and the counted bytes end with the message. |
| `RoundTrip.ParseSuback` | cpp/src/mqtt/mqtt_suback.cpp:108-166 | SUBACK: packet id and all codes come back. |
| `RoundTrip.ParseUnsubscribe` | cpp/src/mqtt/mqtt_unsubscribe.cpp:113-215 | UNSUBSCRIBE with one topic comes back. |
| `RoundTrip.FlagsOfSent` | cpp/src/mqtt/mqtt_connect.cpp:107-168 | In a surviving CONNECT, each flag bit is set exactly when its field is written. |
| `RoundTrip.HeaderRoundTrip` | cpp/src/mqtt/mqtt_header.cpp:137-271 | Type, flags and remaining length below 268435456 are read back from what build_header writes, and nothing behind is touched. |
| `RoundTrip.DecodeEncode` | cpp/src/mqtt/mqtt_header.cpp:137-170 | The remaining-length field decodes to the length it encodes (section 2.2.3 of MQTT 3.1.1). |
| `RoundTrip.EncodeShortest` | cpp/src/mqtt/mqtt_header.cpp:137-170 | No shorter byte string decodes to the same length. |
| `RoundTrip.FourContinuationBytes` | cpp/src/mqtt/mqtt_header.cpp:236-271 | Four bytes with the continuation bit are an error, whatever follows. |
| `RoundTrip.DrainPrinted` | cpp/src/mqtt/mqtt_client.cpp:72-128 | A printed message in front of any bytes is delivered, and the rest is read as the next header. |
| `RoundTrip.ConnectReads` | cpp/src/mqtt/mqtt_connect.cpp:188-404 | Any CONNECT: for any ten bytes in front (protocol name and level are not looked at) and any flag byte, the strings that the flags announce, empty ones included, are read in the order of section 3.1.3, and nothing behind is touched. Only an empty will topic is left out; see Outcomes.ConnectRefusedIff. |
| `RoundTrip.SubscribeReads` | cpp/src/mqtt/mqtt_subscribe.cpp:111-239 | Any SUBSCRIBE, whatever its QoS bytes and its announced length: it ends with the topic within which the length ends, with each QoS byte as it is when it is at most 2, and 0 otherwise. |
| `RoundTrip.ReadTopics` | cpp/src/mqtt/mqtt_subscribe.cpp:111-239 | One whose length goes on has read these topics, with the same QoS values, and waits for the next. |
| `RoundTrip.ReadCodes` | cpp/src/mqtt/mqtt_suback.cpp:108-166 | Any SUBACK, whatever its return codes: it ends with the code at which the announced length ends, and a code above 2, such as the 0x80 of a refusal, is read as 0. |
| `RoundTrip.ConnectionCloses` | cpp/src/mqtt/mqtt_client.cpp:72-128 | Behind any surviving messages, a byte of type 0 or 15 closes the connection, and so does a message that the handler refuses; what came before is delivered in order, the refused message last, and nothing that follows, in any cut. |
| `RoundTrip.DrainAccepted` | cpp/src/mqtt/mqtt_client.cpp:72-128 | Surviving messages in front of any bytes are delivered first. |
| `Outcomes.HeaderRefusedIff` | cpp/src/mqtt/mqtt_header.cpp:200-271 | Of all inputs, a header is refused exactly for types 0 and 15 and for four length bytes that all go on. |
| `Outcomes.ConnectRefusedIff` | cpp/src/mqtt/mqtt_connect.cpp:188-404 | Of all inputs, a CONNECT is refused exactly at the byte behind an announced will topic that is empty, at the offset that the client id gives. |
| `Outcomes.PublishOutcome` | cpp/src/mqtt/mqtt_publish.cpp:111-267 | For all inputs behind any header of a PUBLISH: where topic, packet id and payload lie, what is delivered and what is left, what waits, and what is refused (an empty topic, a length that ends in front of the payload, a byte behind an empty payload at QoS 0). |
| `Outcomes.SubscribeOutcome` | cpp/src/mqtt/mqtt_subscribe.cpp:92-239 | Behind any topics that have been read: a SUBSCRIBE is refused exactly when its length has no room for another topic or that topic is empty, and waits when bytes of it are missing. |
| `Outcomes.SubackOutcome` | cpp/src/mqtt/mqtt_suback.cpp:88-166 | For all inputs: no SUBACK is refused, one without room for a code has none, and the others have the codes up to their length, those above 2 read as 0. |
| `Outcomes.UnsubscribeOutcome` | cpp/src/mqtt/mqtt_unsubscribe.cpp:94-215 | Any list of topics under any announced length: every topic arrives with all topics before it in front, the count of bytes takes them in each time, and the message ends, goes on or is refused by that count. |
| `Outcomes.GluedIsConcat` | cpp/src/mqtt/mqtt_unsubscribe.cpp:188-215 | Topic i arrives as the topics 0 to i in one string. |
| `Outcomes.UnsubscribeRefuses` | cpp/src/mqtt/mqtt_unsubscribe.cpp:113-186 | A length without room for a topic, and an empty topic behind any others, are refused. |
| `Wire.ConnectOnWire` | cpp/src/mqtt/mqtt_connect.cpp:107-168 | The first bytes of every CONNECT that is printed are 0, 4, M, Q, T, T, 4; then the flag byte, which has the bits set before and those of the fields that follow, and no other; then the keep-alive, high byte first, so that a reader of buff_[8] and buff_[9], as section 3.1.2.10 of MQTT 3.1.1 asks, gets it back. |
| `Wire.SentFlags` | cpp/src/mqtt/mqtt_connect.cpp:107-146 | The three flag bits are set by what is written, and the other five are left alone. |
| `Wire.FirstByte` | cpp/src/mqtt/mqtt_header.cpp:137-170 | The first byte of every printed message, with the type numbers and flags of section 2.2 of MQTT 3.1.1 as numbers; DUP is cleared at QoS 0 and at the reserved QoS 3. |
| `Wire.LengthDigits` | cpp/src/mqtt/mqtt_header.cpp:137-170 | The one to four length bytes for every length below 268435456, as table 2.4 gives them. |
| `Wire.AcceptedIff` | cpp/src/mqtt/mqtt_publish.cpp:61-97 | Seen from the wire: to_string refuses exactly the messages that would carry packet id 0 at QoS 1 or 2, or an empty list of topics or codes, and lengths that the header cannot write. |
| `MqttClient.Client.ReadAll` | cpp/src/mqtt/mqtt_client.cpp:31-70 | A run of readable events leaves the client object in the session that the reference definition gives for the same reads. |
| `MqttClient.Client.OnRead` | cpp/src/mqtt/mqtt_client.cpp:46-66 | What the callback does with the bytes it has read: the drain loop terminates and refines one read of the reference session; no data closes the connection. |
| `MqttClient.Client.ReadCallback` | cpp/src/mqtt/mqtt_client.cpp:31-70 | The whole callback: on an expired timer nothing is read, and the connection closes unless a timeout handler accepts; otherwise as for reading. |
| `MqttClient.Client.Deliver` | cpp/src/mqtt/mqtt_client.cpp:109-127 | A complete message is handed out once, and the client waits for a header again. |
| `MqttClient.Client.HandleData` | cpp/src/mqtt/mqtt_client.cpp:72-128 | One round: header, factory, body, handler and reset; the bytes it leaves mean the same to the session as the bytes it got, and it makes progress. |
| `MqttClient.Client.ReadBody` | cpp/src/mqtt/mqtt_client.cpp:97-128 | The body of the current message, its delivery and the reset of the header. |
| `MqttClient.Progress` | cpp/src/mqtt/mqtt_client.cpp:54-66 | A message that waits for bytes consumes at least one of those it gets. |
| `MqttMessage.CreateMessage` | cpp/src/mqtt/mqtt_message.cpp:77-131 | The factory makes the class of the type, ready to read, with the flags and length of the header. |
| `MqttMessage.UpdateMessage` | cpp/src/mqtt/mqtt_client.cpp:100-107 | The virtual update of every class refines the reference parser. |
| `MqttHeader.Header.BuildHeader` | cpp/src/mqtt/mqtt_header.cpp:137-170 | The four branches for one to four length bytes write the shortest encoding; 268435456 and more are refused. |
| `MqttHeader.Header.Update` | cpp/src/mqtt/mqtt_header.cpp:200-216 | The resumable header parser computes the reference parser on any cut of the input. |
| `MqttHeader.Header.UpdateHeaderType` | cpp/src/mqtt/mqtt_header.cpp:218-234 | The first byte: type and flags, types 0 and 15 refused. |
| `MqttHeader.Header.UpdateHeaderLen` | cpp/src/mqtt/mqtt_header.cpp:236-271 | The length bytes, across reads. |
| `MqttHeader.Header.CollectDigits` | cpp/src/mqtt/mqtt_header.cpp:236-262 | The loop that collects length bytes stops at the first without continuation bit or after four. |
| `MqttHeader.Header.SumDigits` | cpp/src/mqtt/mqtt_header.cpp:262-270 | The loop that adds the digits computes the value of the field. |
| `MqttHeader.Header.SetDup` | cpp/src/mqtt/mqtt_header.cpp:119-126 | Only the DUP bit changes. |
| `MqttConnect.ConnectMessage.ToString` | cpp/src/mqtt/mqtt_connect.cpp:107-168 | Appends the printed message and sets the flags of what it writes, or refuses and appends nothing; Wire.ConnectOnWire says which bytes these are. |
| `MqttConnect.ConnectMessage.SetFields` | cpp/src/mqtt/mqtt_connect.cpp:107-146 | Flag bits and body length for the fields that are present; a will that lacks topic or message is dropped. |
| `MqttConnect.ConnectMessage.Update` | cpp/src/mqtt/mqtt_connect.cpp:188-205 | The CONNECT parser computes the reference parser on any cut of the input. |
| `MqttConnect.ConnectMessage.UpdateHeaderVar` | cpp/src/mqtt/mqtt_connect.cpp:207-265 | Variable header, across reads. |
| `MqttConnect.ConnectMessage.SaveLength` | cpp/src/mqtt/mqtt_connect.cpp:241-265 | The two length bytes of a string, across reads. |
| `MqttConnect.ConnectMessage.SaveData` | cpp/src/mqtt/mqtt_connect.cpp:288-300 | The bytes of a string, across reads. |
| `MqttConnect.ConnectMessage.UpdateCidLen` | cpp/src/mqtt/mqtt_connect.cpp:267-300 | State handler: what it has consumed and what it leaves mean the same to the reference parser, also when the input ends inside the field; the next state follows the flag bits. |
| `MqttConnect.ConnectMessage.UpdateCidVal` | cpp/src/mqtt/mqtt_connect.cpp:302-316 | State handler: what it has consumed and what it leaves mean the same to the reference parser, also when the input ends inside the field; the next state follows the flag bits. |
| `MqttConnect.ConnectMessage.UpdateWillTopicLen` | cpp/src/mqtt/mqtt_connect.cpp:318-323 | State handler: what it has consumed and what it leaves mean the same to the reference parser, also when the input ends inside the field; the next state follows the flag bits. |
| `MqttConnect.ConnectMessage.UpdateWillTopicVal` | cpp/src/mqtt/mqtt_connect.cpp:325-330 | State handler: what it has consumed and what it leaves mean the same to the reference parser, also when the input ends inside the field; the next state follows the flag bits. |
| `MqttConnect.ConnectMessage.UpdateWillMsgLen` | cpp/src/mqtt/mqtt_connect.cpp:332-346 | State handler: what it has consumed and what it leaves mean the same to the reference parser, also when the input ends inside the field; the next state follows the flag bits. |
| `MqttConnect.ConnectMessage.UpdateWillMsgVal` | cpp/src/mqtt/mqtt_connect.cpp:348-359 | State handler: what it has consumed and what it leaves mean the same to the reference parser, also when the input ends inside the field; the next state follows the flag bits. |
| `MqttConnect.ConnectMessage.UpdateUsernameLen` | cpp/src/mqtt/mqtt_connect.cpp:361-373 | State handler: what it has consumed and what it leaves mean the same to the reference parser, also when the input ends inside the field; the next state follows the flag bits. |
| `MqttConnect.ConnectMessage.UpdateUsernameVal` | cpp/src/mqtt/mqtt_connect.cpp:375-385 | State handler: what it has consumed and what it leaves mean the same to the reference parser, also when the input ends inside the field; the next state follows the flag bits. |
| `MqttConnect.ConnectMessage.UpdatePasswdLen` | cpp/src/mqtt/mqtt_connect.cpp:387-397 | State handler: what it has consumed and what it leaves mean the same to the reference parser, also when the input ends inside the field; the next state follows the flag bits. |
| `MqttConnect.ConnectMessage.UpdatePasswdVal` | cpp/src/mqtt/mqtt_connect.cpp:399-404 | State handler: what it has consumed and what it leaves mean the same to the reference parser, also when the input ends inside the field; the next state follows the flag bits. |
| `MqttPublish.PublishMessage.ToString` | cpp/src/mqtt/mqtt_publish.cpp:61-97 | Appends the printed message, clears DUP at QoS 0, refuses a missing packet id or too large a length. |
| `MqttPublish.PublishMessage.Update` | cpp/src/mqtt/mqtt_publish.cpp:111-126 | The PUBLISH parser computes the reference parser on any cut of the input. |
| `MqttPublish.PublishMessage.UpdateTopicLen` | cpp/src/mqtt/mqtt_publish.cpp:139-169 | State handler; an empty topic is refused. |
| `MqttPublish.PublishMessage.UpdateTopicVal` | cpp/src/mqtt/mqtt_publish.cpp:171-196 | State handler, with the unchecked 32-bit subtraction of the code. |
| `MqttPublish.PublishMessage.UpdatePktId` | cpp/src/mqtt/mqtt_publish.cpp:198-243 | State handler; the end of the message, an error, or the payload follows. |
| `MqttPublish.PublishMessage.UpdatePayload` | cpp/src/mqtt/mqtt_publish.cpp:245-267 | State handler; any byte is an error when no payload is left to read. |
| `MqttConnack.ConnackMessage.ToString` | cpp/src/mqtt/mqtt_connack.cpp:49-67 | Appends the printed message. |
| `MqttConnack.ConnackMessage.Update` | cpp/src/mqtt/mqtt_connack.cpp:69-112 | The CONNACK parser computes the reference parser on any cut of the input. |
| `MqttConnack.ConnackMessage.SetSession` | cpp/src/mqtt/mqtt_connack.cpp:34-42 | The flag byte becomes 1 or 0. |
| `MqttAck.AckMessage.ToString` | cpp/src/mqtt/mqtt_ack.cpp:37-54 | Appends the printed message; five types. |
| `MqttAck.AckMessage.Update` | cpp/src/mqtt/mqtt_ack.cpp:56-101 | The parser of the five acknowledgements computes the reference parser on any cut of the input. |
| `MqttAck.EmptyMessage.ToString` | cpp/src/mqtt/mqtt_pingreq.cpp:18-27 | Appends the two bytes of a message without body. |
| `MqttSubscribe.SubscribeMessage.AddTopic` | cpp/src/mqtt/mqtt_subscribe.cpp:46-51 | The stored length grows by what the topic will take, in 32-bit arithmetic, also on an object that has been printed; a right sum stays right. |
| `MqttSubscribe.SubscribeMessage.ToString` | cpp/src/mqtt/mqtt_subscribe.cpp:53-79 | The first call on a built message prints it; each call adds 2 to the stored length. |
| `MqttSubscribe.SubscribeMessage.Update` | cpp/src/mqtt/mqtt_subscribe.cpp:92-109 | The SUBSCRIBE parser computes the reference parser on any cut of the input. |
| `MqttSubscribe.SubscribeMessage.UpdateTopicLen` | cpp/src/mqtt/mqtt_subscribe.cpp:148-184 | State handler with the accounting of bytes read. |
| `MqttSubscribe.SubscribeMessage.UpdateTopicVal` | cpp/src/mqtt/mqtt_subscribe.cpp:186-205 | State handler. |
| `MqttSubscribe.SubscribeMessage.UpdateTopicQos` | cpp/src/mqtt/mqtt_subscribe.cpp:207-239 | State handler; the topic is complete and cleared, values above 2 are read as 0 (RoundTrip.SubscribeReads). |
| `MqttSuback.SubackMessage.ToString` | cpp/src/mqtt/mqtt_suback.cpp:54-86 | Appends header and body with the flags the header has; the first call on a built message prints it; each call adds 2 to the stored length. |
| `MqttSuback.SubackMessage.Update` | cpp/src/mqtt/mqtt_suback.cpp:88-166 | The SUBACK parser computes the reference parser on any cut of the input. |
| `MqttUnsubscribe.UnsubscribeMessage.AddTopic` | cpp/src/mqtt/mqtt_unsubscribe.cpp:45-49 | As for SUBSCRIBE. |
| `MqttUnsubscribe.UnsubscribeMessage.ToString` | cpp/src/mqtt/mqtt_unsubscribe.cpp:51-82 | The first call on a built message prints it; each call adds 2 to the stored length. |
| `MqttUnsubscribe.UnsubscribeMessage.Update` | cpp/src/mqtt/mqtt_unsubscribe.cpp:94-111 | The UNSUBSCRIBE parser computes the reference parser on any cut of the input. |
| `MqttUnsubscribe.UnsubscribeMessage.UpdateTopicVal` | cpp/src/mqtt/mqtt_unsubscribe.cpp:188-215 | State handler, with the topic before still in front of the new one. |
| `Updates.AdvanceField` | cpp/src/mqtt/mqtt_connect.cpp:302-316 | A handler that completes its field from any split of its bytes takes the step of the reference parser. |
| `Updates.AdvanceNext` | cpp/src/mqtt/mqtt_connect.cpp:188-205 | Handlers one after the other compose. |
| `Updates.AdvanceEnd` | cpp/src/mqtt/mqtt_publish.cpp:111-126 | When the loop of update ends, its result and the state left behind are those of the reference parser. |
| `Bytes.Fill` | cpp/src/mqtt/mqtt_connect.cpp:207-228 | The loop that fills a small buffer takes exactly the bytes that are missing, or all there are. |
| `Bytes.Append` | cpp/src/mqtt/mqtt_connect.cpp:302-316 | The loop that appends to a string takes exactly the bytes that are missing, or all there are. |
| `Bytes.PackUnpackShort` | cpp/src/mqtt/mqtt_message.cpp:44-75 | unpack_short undoes pack_add on 16-bit integers. |
| `Registration.DeferredRefinesDirect` | c/src/nio_event.c:120-298 | For every interleaving of calls and waits over any set of files, each call returns the same in both modes, and after a last flush every file has the same mask and callbacks as with NIO_EVENT_DIRECT, no pending work, and is off the ring. |
| `Batching.DeferredCallsNoMore` | c/src/nio_event.c:120-298 | Over every interleaving of calls and waits, a last flush included, deferring makes no more back-end calls for any file than direct mode makes. |
| `Batching.RunSaves` | c/src/nio_event.c:120-298 | The same from any pair of states that agree. |
| `Batching.RunLeads` | c/src/nio_event.c:120-298 | In either mode and over any run, the calls that the back end gets for a file, applied in order, lead to the mask of the file, and each of them changes what the back end waits for. |
| `Batching.StepLeads` | c/src/nio_event.c:120-272 | The same for one call, with at most one back-end call where there is one for both directions. |
| `Batching.FlushLeads` | c/src/nio_event.c:274-298 | The same for a flush. |
| `History.CallbacksOfRun` | c/src/nio_event.c:120-272 | After any run from new files, in either mode, read off the list of calls alone: the read callback is that of the last AddRead, or none when a DelRead follows or none was made or the descriptor does not fit or is no socket; the write callback likewise. DelReadWrite, waits, the other direction and other files leave it alone. |
| `History.ResultsOfRun` | c/src/nio_event.c:120-198 | Over any such run, registration returns 1 exactly for a descriptor that fits and is a socket, whatever came before. |
| `History.DirectMasks` | c/src/nio_event.c:120-272 | In direct mode a file is at any time waited for in a direction if and only if the last call that concerns this direction is an add (and the file can be waited for). |
| `History.FlushedMasks` | c/src/nio_event.c:274-298 | In deferred mode the same holds after the next wait. |
| `History.DeferredMasks` | c/src/nio_event.c:120-298 | Before it, what counts are the calls in front of the last wait, or nothing once DelReadWrite has been called since: that call alone is never deferred. |
| `History.KindOfRun` | c/src/nio_event.c:132-153 | In both modes a descriptor is checked by the first call that asks to wait for it and fits, and the answer is kept; without such a call nothing is known of it. |
| `History.LinkedOfRun` | c/src/nio_event.c:132-298 | In deferred mode a file is on the ring exactly when, since the last wait and since it was stopped last, a call would have changed its mask, also when a later one has taken that back. |
| `NioRun.FreshAnswers` | c/src/nio_event.c:120-298 | The four laws together for the files of an engine object after a run: results, callbacks and masks, with the descriptor limit of the engine. |
| `Batching.FlushMinimal` | c/src/nio_event.c:274-298 | A flush makes exactly one call for each direction whose bit has to change, the right one, and none for the other direction. |
| `NioRun.Execute` | c/src/nio_event.c:120-298 | A run of calls and waits on the engine object: results, views of all files and the sequence of back-end calls for each are those of the run on values, in both modes; and when the files were new, results, callbacks and masks are those that History reads off the list of calls. |
| `NioRun.Handle` | c/src/nio_event.c:120-298 | The same for one event. |
| `NioRun.Perform` | c/src/nio_event.c:120-272 | One call for one file: its view, its result and its back-end calls; other files keep theirs. |
| `Registration.RunAgrees` | c/src/nio_event.c:120-298 | The same from any pair of states that agree, at every point of the run: the mask in direct mode is (mask without DEL bits) or ADD bits of the deferred one. |
| `Registration.StepAgrees` | c/src/nio_event.c:120-272 | One call keeps the two modes in agreement and returns the same. |
| `Registration.FlushAgrees` | c/src/nio_event.c:274-298 | A flush makes the mask of the deferred mode that of the direct one. |
| `Registration.StepPending` | c/src/nio_event.c:120-272 | Each deferred call keeps: ADD and DEL of one direction never together, only bits that change the mask, and pending work implies a place on the ring. |
| `Registration.FlushPending` | c/src/nio_event.c:274-298 | The same for a flush. |
| `NioEvent.Engine.AddRead` | c/src/nio_event.c:120-158 | The file ends as the per-file definition says and the back end is called for it exactly as StepCalls says (never in deferred mode); other files do not change, and ring, back end and pending work stay consistent. |
| `NioEvent.Engine.AddWrite` | c/src/nio_event.c:160-198 | As for reading. |
| `NioEvent.Engine.DelRead` | c/src/nio_event.c:200-219 | As for adding. |
| `NioEvent.Engine.DelWrite` | c/src/nio_event.c:221-241 | As for adding. |
| `NioEvent.Engine.DelReadWrite` | c/src/nio_event.c:243-272 | At once in both modes: nothing registered, pending or queued is left of the file, and the back end has no change waiting. |
| `NioEvent.Engine.Prepare` | c/src/nio_event.c:274-298 | Terminates with an empty ring; every file on it is flushed, with all its bits cleared, and gets exactly the back-end calls of FlushCalls, at most one for each direction (see Batching.FlushMinimal); a file that is not queued does not change and gets none. |
| `NioEvent.Engine.FlushFile` | c/src/nio_event.c:276-294 | The calls made for a file are those of FlushCalls in their order, at most one for each direction (Batching.FlushMinimal), and the mask becomes the desired one. |
| `NioEvent.Engine.FlushOne` | c/src/nio_event.c:274-298 | One file is flushed and leaves the ring; the order of the others on the ring and their views stay. |
| `NioEvent.Engine.Enqueue` | c/src/nio_event.c:132-153 | A file goes to the end of the ring; one that is on the ring keeps its place. |
| `NioEvent.Engine.Dequeue` | c/src/nio_event.c:266-271 | Only this file leaves the ring, and the order of the others stays. |
| `NioEvent.Engine.FirstFile` | c/src/nio_event.c:274-298 | The head of the ring leads to the file that owns it; none when the ring is empty. |
| `NioBackend.CountsRegistered` | c/src/events/nio_event_epoll.c:29-199 | In all four back ends fdcount is the number of files with a non-empty mask. |
| `NioBackend.AddRead` | c/src/nio_event.c:132-153 | Every back end adds the direction to the mask of this file only, and its representation stays the masks of the files; the call is noted in the file. |
| `NioBackend.DelRead` | c/src/nio_event.c:203-216 | The same for taking away. |
| `NioRing.Node.Append` | c/src/common/nio_ring.c:24-34 | The entry becomes the first of the sequence. |
| `NioRing.Node.Prepend` | c/src/common/nio_ring.c:36-46 | The entry becomes the last of the sequence. |
| `NioRing.Node.Detach` | c/src/common/nio_ring.c:48-67 | The entry leaves the sequence and is a ring of its own, the order of the others stays; a node in no ring does not change. |
| `NioRing.Node.PopHead` | c/src/common/nio_ring.c:69-82 | Takes the first entry, or null from an empty ring. |
| `NioRing.Node.PopTail` | c/src/common/nio_ring.c:84-97 | Takes the last entry, or null from an empty ring. |
| `NioPoll.Poll.AddRead` | c/src/events/nio_event_poll.c:27-50 | The slot table keeps: files[i].id is i, the descriptor and events of a slot are those of its file, slots behind count are empty, no assert can fail; other slots do not change. |
| `NioPoll.Poll.AddWrite` | c/src/events/nio_event_poll.c:52-76 | As for reading. |
| `NioPoll.Poll.DelRead` | c/src/events/nio_event_poll.c:78-102 | The table stays consistent when the last slot moves into the free one, and every file that stays keeps the contents of its slot, revents included. |
| `NioPoll.Poll.DelWrite` | c/src/events/nio_event_poll.c:104-128 | As for reading. |
| `NioPoll.Poll.Release` | c/src/events/nio_event_poll.c:86-99 | The move of the last slot. |
| `NioPoll.Poll.FreeSlot` | c/src/events/nio_event_poll.c:30-33 | The capacity assert holds as long as a file is not registered. |
| `NioSelect.Select.AddRead` | c/src/events/nio_event_select.c:29-47 | Descriptor sets, table and maximum stay consistent with the masks. |
| `NioSelect.Select.AddWrite` | c/src/events/nio_event_select.c:49-67 | As for reading. |
| `NioSelect.Select.DelRead` | c/src/events/nio_event_select.c:69-88 | As for adding; the maximum stays an upper bound. |
| `NioSelect.Select.DelWrite` | c/src/events/nio_event_select.c:90-109 | As for adding. |
| `NioSelect.Select.Recompute` | c/src/events/nio_event_select.c:134-143 | After the recomputation the maximum is exact, or -1 when nothing is registered. |
| `NioEpoll.Epoll.EpollCtl` | c/src/events/nio_event_epoll.c:29-69 | The kernel interface: ADD needs an absent descriptor, MOD and DEL a present one. |
| `NioEpoll.Epoll.AddRead` | c/src/events/nio_event_epoll.c:29-69 | ADD or MOD is chosen so that the call succeeds, and the interest list stays the masks. |
| `NioEpoll.Epoll.AddWrite` | c/src/events/nio_event_epoll.c:71-103 | As for reading. |
| `NioEpoll.Epoll.DelRead` | c/src/events/nio_event_epoll.c:105-139 | MOD or DEL is chosen so that the call succeeds; for a file that is not registered the kernel refuses and -1 is returned. |
| `NioEpoll.Epoll.DelWrite` | c/src/events/nio_event_epoll.c:141-175 | As for reading. |
| `NioEpoll.Epoll.DelReadWrite` | c/src/events/nio_event_epoll.c:177-199 | Both directions with one DEL; -1 for a file that is not registered. |
| `NioKqueue.Kqueue.Append` | c/src/events/nio_event_kqueue.c:50-66 | The buffer never overflows: a full one is flushed first; kernel and pending changes together gain exactly this change; the kernel will accept the batch if and only if the change does not delete a filter that does not exist. |
| `NioKqueue.Kqueue.Fflush` | c/src/events/nio_event_kqueue.c:29-48 | All pending changes reach the kernel in order, and none deletes a filter that does not exist. |
| `NioKqueue.Kqueue.AddRead` | c/src/events/nio_event_kqueue.c:50-66 | The kernel with the pending changes applied stays the masks of the files, and fdcount the number of registered files, except that it counts a file once more that is registered for reading only (exact condition). |
| `NioKqueue.Kqueue.AddWrite` | c/src/events/nio_event_kqueue.c:68-84 | As for reading. |
| `NioKqueue.Kqueue.DelRead` | c/src/events/nio_event_kqueue.c:86-102 | As for adding, if and only if the file was registered for reading; otherwise the kernel will refuse the batch. |
| `NioKqueue.Kqueue.DelWrite` | c/src/events/nio_event_kqueue.c:104-120 | As for adding. |
| `NioKqueue.Kqueue.NothingPending` | c/src/events/nio_event_kqueue.c:122-135 | With no change pending, the filters of the kernel are the masks; a file with an empty mask has none. |
| `NioHtable.Table.Enter` | c/src/common/nio_htable.c:268-316 | A new key is added to the map; a key that is there is never overwritten and reported as a duplicate; a full table grows first, also for a duplicate; all structural invariants hold. |
| `NioHtable.Table.Grow` | c/src/common/nio_htable.c:196-221 | The map stays the same, with the same entry objects, in an array of twice the size and one; every entry is in the bucket of its hash. |
| `NioHtable.Table.Move` | c/src/common/nio_htable.c:210-217 | All entries of one old chain are linked into the new array while their old links are being overwritten. |
| `NioHtable.Table.InBucket` | c/src/common/nio_htable.c:214-215 | In any table every entry has the hash of its key, and is in the bucket of its remainder by the size, and in no other. |
| `NioHtable.Table.Find` | c/src/common/nio_htable.c:320-325 | Agrees with the map. |
| `NioHtable.Table.Locate` | c/src/common/nio_htable.c:329-344 | The entry of the key, if the map has the key. |
| `NioHtable.Table.Delete` | c/src/common/nio_htable.c:368-385 | The key leaves the map, 0 or -1 as it was there or not. |
| `NioHtable.Table.DeleteEntry` | c/src/common/nio_htable.c:346-364 | Only this entry leaves; its neighbours, or the bucket, are linked past it. |
| `NioHtable.Table.Link` | c/src/common/nio_htable.c:162-169 | The entry is put in front of its chain; links stay mutually consistent. |
| `NioHtable.Table.Size` | c/src/common/nio_htable.c:173-192 | An empty array of odd size. |
| `NioHash.HashFolds` | c/src/common/nio_htable.c:140-159 | Every key has the hash that 32-bit arithmetic gives, without a branch: the carry that a 64-bit unsigned long keeps beyond bit 31 never comes back, and the top four bits of 32 always return 24 bits lower, so a hash has 28 bits. |
| `NioHash.StepFolds` | c/src/common/nio_htable.c:150-156 | The same for one character, from any 64-bit value before it. |
| `NioHash.HashOf` | c/src/common/nio_htable.c:140-159 | The loop computes this hash of the string. |
| `NioHtable.Table.OrderOnce` | c/src/common/nio_htable.c:478-498 | A walk over the table meets every entry exactly once, and used is their number. |
| `NioHtable.Table.List` | c/src/common/nio_htable.c:478-498 | The listed entries are the walk, in its order, and a null behind them; never more than used + 1 cells are written. |
| `NioHtable.Table.IterHead` | c/src/common/nio_htable.c:8-33 | The iterator stands at the first entry of the walk, or reports none. |
| `NioHtable.Table.IterNext` | c/src/common/nio_htable.c:37-66 | The iterator moves to the next entry of the walk, within a chain or over empty buckets, or reports the end and stays there. |
| `NioHtable.IndexedUnique` | c/src/common/nio_htable.c:196-221 | A set of entries with different keys determines the map. |
| `Walks.WalkOnce` | c/src/common/nio_htable.c:478-498 | A walk over chains that share no element has no element twice. |
| `Timers.TimersKeepDeadlines` | cpp/src/nio_event.cpp:55-142 | Over any run of timer calls, readings of the clock and firings, in any order, in which a timer is armed only while it is not armed: the multimap holds exactly the armed timers under their deadlines, and each firing takes exactly the timers whose deadline the clock has reached, once each, in the order of deadlines, and no others. |
| `Timers.StepRefines` | cpp/src/nio_event.cpp:55-142 | The same for one event. |
| `Timers.FireRefines` | cpp/src/nio_event.cpp:128-142 | What is taken from the front of the multimap is exactly what is due. |
| `Timers.DisarmRefines` | cpp/src/nio_event.cpp:68-76 | del_timer takes this timer out and no other, also among equal keys. |
| `Timers.ArmRefines` | cpp/src/nio_event.cpp:55-66 | add_timer adds one deadline and keeps the others. |
| `Timers.OnTime` | cpp/src/nio_event.cpp:55-66 | The deadline lies in the millisecond from stamp + ms on; with clock stamps in whole milliseconds the timer fires with the first that is at least ms later, or one after, and never early. |
| `Timers.SleepsInTimeIff` | c/src/nio_event.c:300-325 | Counted from the last reading of the clock, what nio_event_wait2 makes of the sleep ends at the first deadline at the latest, if and only if the deadline is a millisecond or more away, or nothing is asked for; without a limit on the wait, 100 ms or more away. The cut to int never makes a sleep late. |
| `Timers.SleepExact` | cpp/src/nio_event.cpp:111-121 | How many milliseconds the back end waits, for every queue, every ms and every distance d to the first deadline, with e the remainder of d in 32 bits: the whole milliseconds in e, cut to ms; ms itself where e is below a millisecond or nothing is armed; 100 where the result is no number from 0 to 1000. |
| `Timers.SleepsFullyIff` | cpp/src/nio_event.cpp:111-121 | The sleep is also as long as it may be, ms or all whole milliseconds up to the first deadline, if and only if the deadline is less than 2 to the 31 nanoseconds away or its remainder in 32 bits does not lie between a millisecond and ms; otherwise the cut to int wakes the engine early. |
| `NioTimers.WaitFires` | cpp/src/nio_event.cpp:111-142 | When no descriptor is ready, a wait fires exactly the timers whose deadlines the clock behind the sleep has reached, in order, whatever was done to the timers before the sleep. |
| `NioTimers.WaitArms` | cpp/src/nio_event.cpp:111-142 | A timer that the callback of a descriptor arms counts from the clock behind the sleep and does not fire in the same wait. |
| `Timers.Oversleeps` | cpp/src/nio_event.cpp:111-121 | A deadline in less than a millisecond does not shorten a wait of 500 ms. |
| `Timers.DisarmedIff` | cpp/src/nio_event.cpp:68-76 | For any multimap, del_timer disarms a timer if and only if it has no entry, or a single one under the key the timer remembers. |
| `Timers.ArmTwice` | cpp/src/nio_event.cpp:55-66 | add_timer keeps every entry under the key its timer remembers if and only if the timer is not armed (or gets the same key again). |
| `Timers.StaleEntry` | cpp/src/nio_event.cpp:55-76 | A timer armed twice and then deleted keeps its first entry. |
| `Sequences.WithoutBag` | cpp/src/nio_event.cpp:68-76 | One entry goes, all others stay. |
| `NioTimers.TimerEngine.AddTimer` | cpp/src/nio_event.cpp:55-66 | Refines one step of the timer model, with the 32-bit counter. |
| `NioTimers.TimerEngine.DelTimer` | cpp/src/nio_event.cpp:68-76 | The loop over equal_range refines one step of the timer model. |
| `NioTimers.TimerEngine.ResetTimer` | cpp/src/nio_event.cpp:78-81 | Delete, then add. |
| `NioTimers.TimerEngine.TriggerTimers` | cpp/src/nio_event.cpp:128-142 | The loop takes exactly the leading entries that are due, in order, before any of their callbacks is called; what those call comes after. |
| `NioTimers.TimerEngine.Wait` | cpp/src/nio_event.cpp:111-126 | The number of milliseconds that the back end waits, after the limit of nio_event_wait2; and the whole wait, with whatever timer calls are made when sockets are closed, when descriptors are ready and by the timers that fire, is a run of the timer model in this order. |
| `NioTimers.TimerEngine.Perform` | cpp/src/nio_event.cpp:55-142 | One event on the engine object refines one step of the timer model. |
| `NioTimers.TimerEngine.PerformAll` | cpp/src/nio_event.cpp:55-142 | The same for a sequence of events. |
| `Outgoing.ConservedIff` | cpp/src/event_proc.cpp:93-152 | Over any run of writes and write-ready events with arbitrary partial writes of the kernel: bytes sent followed by bytes waiting are, in order, the data of all writes at which the kernel did not fail, if and only if no write met an empty buffer and a kernel that would block. |
| `Outgoing.PromisedIff` | cpp/src/event_proc.cpp:93-152 | The law as the caller sees it: bytes sent followed by bytes waiting are, in order, the data of exactly the writes that did not return -1, if and only if no write met an empty buffer and either a kernel that would block, or a partial write whose rest could not be registered. |
| `Outgoing.PromisedLength` | cpp/src/event_proc.cpp:93-152 | No byte that was promised is ever missing, and there are more than were promised as soon as one write denies data it took. |
| `Outgoing.StreamLength` | cpp/src/event_proc.cpp:93-152 | Every such blocked write brings exactly one byte too many into the stream. |
| `Outgoing.BlockedWrite` | cpp/src/event_proc.cpp:100-127 | Concrete case: the byte in front of the data is sent to the peer. |
| `Outgoing.TakesReported` | cpp/src/event_proc.cpp:93-152 | One call: what was sent grows by exactly the n bytes that the kernel takes, the first of those it was given; a value other than -1 is this number; -1 is returned exactly when the kernel fails or a write denies what it took. |
| `Outgoing.ReportedIff` | cpp/src/event_proc.cpp:93-152 | Over any run: what was sent has grown by all that the kernel took, the non-negative values returned never add up to more, and they add up to this if and only if no write returned -1 after the kernel had taken a part of its data. |
| `Outgoing.SentStays` | cpp/src/event_proc.cpp:93-152 | What has been sent stays at its place in the stream. |
| `EventProc.Channel.Write` | cpp/src/event_proc.cpp:93-127 | Refines one write of the stream model; return value and registration for writing in all cases; a value other than -1 is the number of bytes sent. |
| `EventProc.Channel.Flush` | cpp/src/event_proc.cpp:129-152 | Refines one write-ready event; return value in all cases; a value other than -1 is the number of bytes sent. |
| `EventProc.Channel.WriteProc` | cpp/src/event_proc.cpp:160-176 | on_write runs exactly when nothing waits any more, on_error exactly when the kernel fails. |
| `EventProc.Channel.WriteCallback` | cpp/src/client_socket.cpp:171-197 | In client_socket the test is the other way round: after a flush, on_write runs exactly when a part was taken and bytes still wait. |
| `MqttHeader.Header.Reset` | cpp/src/mqtt/mqtt_header.cpp:75-82 | The header waits for its first byte again. |
| `MqttHeader.Header.Copy` | cpp/src/mqtt/mqtt_header.cpp:63-71 | The copy keeps type, flags and length only. |
| `MqttHeader.Header.SetHeaderFlags` | cpp/src/mqtt/mqtt_header.cpp:93-96 | Only the flags change. |
| `MqttHeader.Header.SetRemainingLength` | cpp/src/mqtt/mqtt_header.cpp:98-101 | Only the length changes. |
| `MqttConnect.ConnectMessage.Received` | cpp/src/mqtt/mqtt_connect.cpp:31-40 | An object made from a header is where the reference parser starts. |
| `MqttPublish.PublishMessage.Received` | cpp/src/mqtt/mqtt_publish.cpp:25-34 | An object made from a header is where the reference parser starts. |
| `MqttPublish.PublishMessage.SetPayload` | cpp/src/mqtt/mqtt_publish.cpp:53-59 | Announced length and stored bytes; no bytes may be given with a length. |
| `MqttPublish.PublishMessage.SetTopic` | cpp/src/mqtt/mqtt_publish.cpp:38-41 | Replaces the topic and nothing else. |
| `MqttPublish.PublishMessage.SetPktId` | cpp/src/mqtt/mqtt_publish.cpp:43-51 | 0 is not accepted as a packet id. |
| `MqttConnack.ConnackMessage.Received` | cpp/src/mqtt/mqtt_connack.cpp:21-30 | An object made from a header is where the reference parser starts. |
| `MqttAck.AckMessage.Received` | cpp/src/mqtt/mqtt_ack.cpp:19-26 | An object made from a header is where the reference parser starts; PUBREL sets its own flags. |
| `MqttAck.AckMessage.SetPktId` | cpp/src/mqtt/mqtt_ack.cpp:30-35 | 0 is not accepted as a packet id. |
| `MqttSubscribe.SubscribeMessage.Received` | cpp/src/mqtt/mqtt_subscribe.cpp:24-33 | An object made from a header is where the reference parser starts. |
| `MqttSuback.SubackMessage.Received` | cpp/src/mqtt/mqtt_suback.cpp:22-31 | An object made from a header is where the reference parser starts. |
| `MqttSuback.SubackMessage.AddTopicQos` | cpp/src/mqtt/mqtt_suback.cpp:40-44 | The stored length grows by one, also on an object that has been printed; a right sum stays right. |
| `MqttUnsubscribe.UnsubscribeMessage.Received` | cpp/src/mqtt/mqtt_unsubscribe.cpp:23-32 | An object made from a header is where the reference parser starts. |
| `MqttSubscribe.SubscribeMessage.UpdateHeaderVar` | cpp/src/mqtt/mqtt_subscribe.cpp:111-146 | State handler for the packet id; a message that ends with it is refused. |
| `MqttSuback.SubackMessage.UpdateHeaderVar` | cpp/src/mqtt/mqtt_suback.cpp:108-141 | State handler for the packet id. |
| `MqttSuback.SubackMessage.UpdateTopicQos` | cpp/src/mqtt/mqtt_suback.cpp:143-166 | State handler for one code; values above 2 are read as 0 (Outcomes.SubackOutcome). |
| `MqttUnsubscribe.UnsubscribeMessage.UpdateHeaderVar` | cpp/src/mqtt/mqtt_unsubscribe.cpp:113-148 | State handler for the packet id. |
| `MqttUnsubscribe.UnsubscribeMessage.UpdateTopicLen` | cpp/src/mqtt/mqtt_unsubscribe.cpp:150-186 | State handler with the accounting of bytes read. |
| `MqttAck.AckMessage.UpdateHeaderVar` | cpp/src/mqtt/mqtt_ack.cpp:75-101 | State handler for the packet id. |
| `MqttConnack.ConnackMessage.UpdateHeaderVar` | cpp/src/mqtt/mqtt_connack.cpp:88-112 | State handler for the two bytes. |
| `NioEvent.Engine.RequestRead` | c/src/nio_event.c:132-153 | A pending DEL is withdrawn, an ADD is recorded or done, the descriptor is checked once; the back end is called only in direct mode. |
| `NioEvent.Engine.RequestWrite` | c/src/nio_event.c:172-193 | As for reading. |
| `NioEvent.Engine.StopBoth` | c/src/nio_event.c:244-256 | Both directions of a file are taken from the back end: one call if it has one for both, otherwise one for each direction that is set. |
| `NioEvent.Engine.constructor` | c/src/nio_event.c:32-82 | A new engine has an empty ring and is consistent with its files. |
| `NioBackend.AddWrite` | c/src/nio_event.c:172-193 | As for reading. |
| `NioBackend.DelWrite` | c/src/nio_event.c:224-237 | As for reading. |
| `NioBackend.DelReadWrite` | c/src/nio_event.c:244-247 | Both directions of this file leave the representation. |
| `NioBackend.Fflush` | c/src/nio_event.c:268-271 | No change waits afterwards, and the representation stays the masks. |
| `NioPoll.Poll.CountsRegistered` | c/src/events/nio_event_poll.c:27-128 | count and fdcount are the number of files with a non-empty mask. |
| `NioSelect.Select.CountsRegistered` | c/src/events/nio_event_select.c:29-109 | The same. |
| `NioEpoll.Epoll.CountsRegistered` | c/src/events/nio_event_epoll.c:29-199 | The same. |
| `NioRing.Node.First` | c/src/nio_event.c:274-278 | The first entry, or null when there is none. |
| `NioRing.Node.Bypass` | c/src/common/nio_ring.c:55-62 | The neighbours of the entry become neighbours. |
| `NioHtable.Unlink` | c/src/common/nio_htable.c:349-357 | Forward and backward links of the rest of the chain, and the front that the bucket gets. |
| `NioHtable.LinkFront` | c/src/common/nio_htable.c:162-169 | Forward and backward links of the longer chain. |
| `NioHtable.Table.Search` | c/src/common/nio_htable.c:286-293 | The walk along one chain finds the entry of the key exactly when the map has the key. |
| `NioHtable.Table.constructor` | c/src/common/nio_htable.c:223-247 | An empty table of odd size, at least 13 and at least as asked. |
| `NioHtable.Table.MakeRoom` | c/src/common/nio_htable.c:277-282 | The table grows exactly when it is full. |

## Left out

- RoundTrip.PipelinedRoundTrip: the keep-alive is compared as the code reads it, with the byte behind the buffer as a parameter of the environment; `Limits.PipelinedAsSentIff` says when the messages are those that were sent.
- Limits.RoundTripIff: compares the keep-alive in the same way; `Limits.ArrivesAsSentIff` has no such exception.
- MqttPublish.PublishMessage.ToString: the caller must hand over at least the payload bytes that it announces, as with `set_payload`; reading behind a shorter buffer is not modelled.
- MqttSubscribe.SubscribeMessage.ToString: topics and QoS values are added in pairs, so the two vectors have the same length.
- MqttHeader.Header.SumDigits: the bitwise or of shifted digits is modelled as their sum; the digits do not overlap.
- NioEvent.Engine.AddRead: the outcome of the descriptor check (a seek on the descriptor, which a socket refuses) is a property of the file; files have different descriptors, and there is room for all of them.
- NioBackend.AddRead: asks for a direction that the file is not registered for, as nio_event.c does; NioKqueue and NioEpoll say what happens otherwise.
- NioEpoll.Epoll.AddRead: calls of the kernel succeed when their arguments allow it; other errors (no memory, watch limit) are not modelled.
- NioHtable.Table.Enter: allocation succeeds, sizes do not exceed `int`, and the value of an entry is not changed by the caller afterwards.
- NioHtable.Table.Find: a stored null value is told from an absent key, which the C function cannot.
- NioTimers.TimerEngine.TriggerTimers: returns the timers in the order in which they are called; which timer calls their callbacks make is a parameter of `NioTimers.TimerEngine.Wait`. Stamps are unbounded; a cut to int keeps the low 32 bits.
- EventProc.Channel.Write: the outcome of the kernel's write and of the registration for writing are parameters.
- Received SUBSCRIBE and SUBACK messages do not keep the flags of their header; the code drops them too, so the model compares the rest.
- CONNACK keeps its flag byte on receipt but not `session_`, and CONNECT does not restore `will_qos_`; the flag bytes are compared.
- `mqtt_client::send_await`: dispatch to the virtual `to_string`. When the read timer expires is a parameter of `MqttClient.Client.ReadCallback`.
- NioTimers.TimerEngine.Wait: the engine has no limit of its own on a wait, as `nio_event_create` leaves it; how long the kernel really waits is not modelled.
- Wait loops of the back ends, and delivery of readiness to callbacks: they depend on the kernel and on user code.
- One-shot mode: the kernel disarms interest behind the masks, and not all functions set it.
- The back ends for I/O completion ports and window messages.
- `iter_tail` and `iter_prev` of the hash table (which go over the buckets from the last, but along each chain from its front), `nio_htable_reset`, `nio_htable_walk` and freeing: easier members.
- `delay_close` and `before_wait`: a list that is emptied once per wait.
- `nio_array`, sockets, addresses, logging, memory wrappers.
