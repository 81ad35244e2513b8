# Protocol codecs, the AMQP request machine and the URL parsers, verified

A Dafny model of three parts of the repository, with proofs about all inputs,
all ways of cutting a byte stream and all runs.

* **The codecs of `3rd_party/mongoose.c`.** `Mbufs.Mbuf` is the growing byte
  buffer `mbuf`: an array with a length, whose contents are a sequence of octets.
  On it stand the writers and readers of WebSocket frames, MQTT packets, HTTP
  chunks, CoAP messages and DNS names; SHA-1 streaming, the glob matcher and URI
  path normalisation work on arrays and sequences of their own. `Framing` holds
  what the stream protocols share: a parser that sees the front of a buffer is
  stable when octets that come later do not change what it has recognised, and
  then what a receiver reports does not depend on how the stream was cut.
* **The asynchronous request machine of `communication/amqp_client_c.cpp`.**
  `AmqpObjects` holds the client and request objects, `AmqpSteps` says what each
  call does on values and proves invariants of all runs with a log of events, and
  `AmqpNetwork` lets any number of clients exchange messages through a broker that
  may lose, reorder and repeat them. `AmqpObjects.Session.Execute` connects the
  two levels: every sequence of calls on the objects is a run of the machine. The
  single-threaded mode (`asyncMode` false) is modelled.
* **The URL codec and parsers of `3rd_party/EdUrlParser.cpp`.** Percent coding,
  the query splitter with its list and map callbacks, and the parser made of gotos.

Methods follow the code: same branches, same order, same constants. Each ends in a
state given by a function of the old one, and lemmas relate these functions to an
independent description: a declarative matching relation for the glob, section
5.2.4 of RFC 3986 for paths, a stable sort for CoAP options, section 5.1.1 of FIPS
180-4 for SHA-1 padding, splitting at '&' before splitting at '=' for query
strings, a stack of components for paths, and the log of events for the AMQP
tables. What a reader finds on the wire is stated octet by octet as well
(`WebSocket.FrameLayout`, `CoapCodec.Layout`, `Sha1.Padding`), so that writer and
reader cannot agree on the wrong format.

Integers are unbounded except where the code's width matters: the two-word bit
counter of SHA-1, the 16-bit option fields of CoAP, the lengths that frames carry.
Clocks, generated ids, random masks, the broker's answer to a publication and the
compression function of SHA-1 are parameters.

Where the code does not meet what one would expect, the exact condition is proved:

* CoAP composition accepts options whose numbers or lengths need more than 16
  bits, and the parser cuts them: the round trip holds if and only if all fit
  (`CoapCodec.RoundTripCondition`, `Coap.Exchange`). Where only numbers are too
  large, each comes back modulo 2^16 and the options are sorted anew by what is left
  (`CoapCodec.WideRoundTrip`); `CoapCodec.WideNumbers` is an input.
* The glob matcher passes over an alternative that matches the empty prefix alone,
  unless it is the last one. With bars the result is positive if and only if some
  alternative's result is (`Glob.AnswerPositive`), and -1 hides a match if and only
  if the last alternative matches nothing, no other has a positive result, and one
  has the result 0 (`Glob.EmptyMatchPassedOver`).
* The route check of `amqp_controller.cpp` repeats one test six times and looks at
  the exchange name alone; that is what splitting reply-to needs, no more and no
  less (`AmqpSteps.ReplyToRoundTrip`).
* The refusal of a late reply covers the first message with the id. Of any number
  of messages the table keeps the body of the last one after the first
  (`AmqpSteps.LateReplyIsRefused`), so the entry of an expired request stays empty
  if and only if no message after the first has a body (`AmqpSteps.EntryStaysEmpty`);
  `AmqpSteps.SecondReplyFills` is a run where one has.
* An answer that has not been fetched is overwritten by exactly the steps that
  consume a message with its id while the entry has a body and no mark
  (`AmqpSteps.OverwrittenNext`); `AmqpSteps.OverwritingRun` is a run where one is.
* A reply to a message whose reply-to is the name that replies carry goes to that
  name; every other one goes back to the asker (`AmqpNetwork.RepliesGoBack`).
  `AmqpNetwork.ExceptionReached` is a run of two clients that gets there.
* An MQTT publication comes back if and only if the flags leave the command bits
  alone and the topic's length fits 16 bits (`Mqtt.RoundTripCondition`).
* The expansion of DNS names ends if and only if it does not come to pointers that
  lead back to themselves (`DnsNames.EndsExactly`); `DnsNames.PointerToItself` is a
  packet where it does. Whether it ends or not, it writes no more than there is room
  for (`DnsNames.TakeTurn`, `DnsNames.Follow`).
* The URL parser recovers the components of an assembled URL if and only if none
  holds a character that ends it (`UrlParser.UrlRoundTrip`);
  `UrlParser.HostWithColon` has one that does.
* The query splitter gives an encoded list back if and only if it keeps every pair:
  strict mode drops empty keys and empty values, the other mode pairs with neither
  (`QueryString.Exchange`; `QueryString.PairsLost` has one pair of each kind).

## Model

| member | source | states |
|---|---|---|
| Mbufs.Memmove | 3rd_party/mongoose.c:1301-1331 | an overlapping move copies the octets that stood at the source before it began and leaves every other octet alone |
| Mbufs.MovedParts | 3rd_party/mongoose.c:1301-1331 | what a move leaves, cut where the buffer is read afterwards |
| Mbufs.Mbuf.Free | 3rd_party/mongoose.c:1273-1278 | the buffer is empty and owns no storage |
| Mbufs.Mbuf.Resize | 3rd_party/mongoose.c:1281-1293 | the contents survive every resize; the size never falls below the length |
| Mbufs.Mbuf.Trim | 3rd_party/mongoose.c:1296-1298 | the size becomes the length and the contents stay |
| Mbufs.Mbuf.Insert | 3rd_party/mongoose.c:1301-1331 | the data stand at the offset and both halves of the old contents stay around them, in place or after growth |
| Mbufs.Mbuf.Append | 3rd_party/mongoose.c:1334-1336 | the contents grow by the data at the end |
| Mbufs.Mbuf.Remove | 3rd_party/mongoose.c:1339-1344 | the first octets go when the buffer has that many, otherwise nothing changes |
| Framing.DrainSplit | 3rd_party/mongoose.c:9237-9245 | for a stable parser, handling all octets at once and handling them in two receives with a kept rest report the same |
| Framing.ReceiveIsDrain | 3rd_party/mongoose.c:9237-9245 | any split of a stream into receives reports what the whole stream would |
| Framing.StreamRoundTrip | 3rd_party/mongoose.c:9927-9946 | a parser that inverts the writer message by message recovers every stream of messages, in order, for every split, with nothing left over |
| Framing.NoPartialFrame | 3rd_party/mongoose.c:9832-9925 | no proper prefix of a frame is recognised |
| Framing.PartialStream | 3rd_party/mongoose.c:9237-9245 | after any part of a stream, cut into any receives, exactly the messages that are complete have been reported and the rest is kept |
| WebSocket.MaskTwice | 3rd_party/mongoose.c:9176-9182 | masking is its own inverse |
| Bytes.XorBit | 3rd_party/mongoose.c:9176-9182 | each binary digit of an exclusive or is the sum of the two digits without carry |
| WebSocket.FirstOctetBits | 3rd_party/mongoose.c:9144-9144 | the first octet has the opcode in its low four bits, FIN unless it is held back, and nothing else |
| WebSocket.FrameLayout | 3rd_party/mongoose.c:9139-9196 | the octets on the wire: FIN, opcode and masking bit, the length in the form for its size and in network byte order, the mask, and the payload masked octet by octet |
| WebSocket.FrameRead | 3rd_party/mongoose.c:9037-9068 | whoever sent them, octets are recognised as a frame exactly when header, mask and as much payload as the length says are there, and the payload is theirs unmasked |
| WebSocket.WholeFrames | 3rd_party/mongoose.c:9003-9028 | on any octets reassembly is for frames without FIN or with opcode 0, and every other frame is read as it is |
| WebSocket.FrameRoundTrip | 3rd_party/mongoose.c:9020-9196 | a frame, masked or not, of any of the three length forms is recognised with its first octet and its unmasked payload, whatever follows |
| WebSocket.WebSocketStream | 3rd_party/mongoose.c:9020-9245 | any sequence of frames with FIN and an opcode other than 0, cut anywhere, is delivered in order, each with its opcode, FIN and payload (section 5.2 of RFC 6455) |
| WebSocket.WebSocketStreamNoDefrag | 3rd_party/mongoose.c:9020-9245 | without defragmentation every sequence of frames is delivered in order, each with its opcode, payload and FIN exactly where it was set |
| WebSocket.WebSocketNoPartialFrame | 3rd_party/mongoose.c:9020-9245 | after any part of the stream, cut into any receives, the frames that are whole have been delivered, nothing of the next one has, and what came of it is kept |
| WebSocket.Unmasked | 3rd_party/mongoose.c:9064-9068 | the loop that unmasks in place leaves the header and the octets after the frame alone |
| WebSocket.Connection.SendHeader | 3rd_party/mongoose.c:9139-9174 | the header of the right length form is appended, with the mask for a client |
| WebSocket.Connection.MaskFrame | 3rd_party/mongoose.c:9176-9182 | only the octets from the recorded position on are masked |
| WebSocket.Connection.SendFrame | 3rd_party/mongoose.c:9184-9196 | the send buffer grows by the frame; an opcode of 8 and no other sets the closing flag |
| WebSocket.Connection.Unmask | 3rd_party/mongoose.c:9064-9068 | the payload is unmasked in place and nothing else changes |
| WebSocket.Connection.ReadLengths | 3rd_party/mongoose.c:9037-9051 | the lengths are those of the frame's form, or nothing while the header is short |
| WebSocket.Connection.TakeFrame | 3rd_party/mongoose.c:9056-9095 | the frame in front is handed on unmasked and leaves the buffer, the rest stays |
| WebSocket.Connection.DeliverData | 3rd_party/mongoose.c:9020-9104 | one attempt delivers the frame in front if and only if it is complete, leaves it to reassembly if and only if it lacks FIN or has opcode 0 and the flag against that is not set, and otherwise changes nothing |
| WebSocket.Connection.HandleReceived | 3rd_party/mongoose.c:9237-9245 | the receive event delivers every complete frame and keeps the rest |
| WebSocket.Connection.ReceiveStream | 3rd_party/mongoose.c:9237-9245 | after all receives the handler has been given each opcode and payload in order, with FIN, and the buffer is empty |
| Mqtt.LengthRoundTrip | 3rd_party/mongoose.c:9843-10002 | decoding inverts the variable-length encoding, whatever follows |
| Mqtt.HeaderParts | 3rd_party/mongoose.c:9984-9987 | quality of service and all of the low four flags are always read back from the first octet, and the command if and only if the flags, in eight bits, are below 64 |
| Mqtt.HeaderSum | 3rd_party/mongoose.c:9984-9987 | for any command, flags below 16 are added to it and both are read back |
| Mqtt.PacketRoundTrip | 3rd_party/mongoose.c:9832-10099 | a published packet is recognised with topic, quality of service, payload and, where there is one, message id |
| Mqtt.RoundTripCondition | 3rd_party/mongoose.c:9832-10099 | a publication comes back if and only if its flags, in eight bits, are below 64 and its topic is shorter than 65536 octets |
| Mqtt.FirstOctet | 3rd_party/mongoose.c:9984-9987 | a publication begins with type 3 and its low four flags |
| Mqtt.Examples | 3rd_party/mongoose.c:9992-10099 | the examples of sections 2.2.3 and 3.3 of MQTT 3.1.1 |
| Mqtt.AckRoundTrip | 3rd_party/mongoose.c:9891-9897 | an acknowledgement or release is reported with its command and message id |
| Mqtt.SubscribeRoundTrip | 3rd_party/mongoose.c:9908-9917 | a subscription is reported with its id and the octets of its topics |
| Mqtt.TopicsRead | 3rd_party/mongoose.c:10121-10133 | the topics of a subscription and the qualities asked for are read back one after the other |
| Mqtt.MqttStream | 3rd_party/mongoose.c:9832-10099 | any sequence of publications, cut anywhere, is reported in order, each with its topic, quality of service, payload and, where there is one, message id (section 2.2.3 of MQTT 3.1.1) |
| Mqtt.MqttNoPartialPacket | 3rd_party/mongoose.c:9832-10099 | after any part of the stream, cut into any receives, exactly the packets that are whole have been reported |
| Mqtt.ProperPrefix | 3rd_party/mongoose.c:9832-9925 | no proper prefix of any packet is recognised |
| Mqtt.PublishProperPrefix | 3rd_party/mongoose.c:9832-10099 | no proper prefix of a publication is recognised |
| Mqtt.Connection.PrependHeader | 3rd_party/mongoose.c:9984-10005 | for any flags the header goes before the last octets of the send buffer and what was queued earlier stays |
| Mqtt.Connection.Publish | 3rd_party/mongoose.c:10082-10099 | for any topic, flags and data the send buffer grows by one packet, with the topic length cut to 16 bits and flag bits above the fourth joined to the command |
| Mqtt.Connection.SendShortCommand | 3rd_party/mongoose.c:10165-10171 | the send buffer grows by the command with its message id |
| Mqtt.Connection.Subscribe | 3rd_party/mongoose.c:10101-10119 | the send buffer grows by the subscription with all its topics |
| Mqtt.Connection.ReadLength | 3rd_party/mongoose.c:9843-9851 | the loop over the length octets computes the decoded length and where it ends |
| Mqtt.Connection.ParseMqtt | 3rd_party/mongoose.c:9832-9925 | the reader returns the packet in front if and only if it is complete |
| Mqtt.Connection.HandleReceived | 3rd_party/mongoose.c:9927-9946 | every complete packet is reported and removed, the rest stays |
| Mqtt.Connection.ReceiveStream | 3rd_party/mongoose.c:9927-9946 | after all receives each publication has been reported in order with its fields and the buffer is empty |
| HttpChunks.ScanPrinted | 3rd_party/mongoose.c:5565-5570 | reading hexadecimal digits inverts printing them |
| HttpChunks.ScanSpelled | 3rd_party/mongoose.c:5565-5570 | a size is read for its value whatever the case of its digits and however many zeros stand in front |
| HttpChunks.HexSpells | 3rd_party/mongoose.c:6607-6615 | what is printed spells the size in capitals without a zero in front |
| HttpChunks.ChunkRoundTrip | 3rd_party/mongoose.c:5559-5590 | a chunk of any size, its digits in either case, is recognised with its data, whatever follows |
| HttpChunks.ChunkRead | 3rd_party/mongoose.c:5559-5590 | nothing else is recognised: what the reader takes is digits that spell the length of the data, two line ends and the data |
| HttpChunks.MessageArrives | 3rd_party/mongoose.c:5559-5647 | any chunks and the empty one, with sizes spelled in any case and cut anywhere, are recognised in order with nothing left (section 4.1 of RFC 7230) |
| HttpChunks.SentIsMessage | 3rd_party/mongoose.c:6607-6615 | what is sent chunk by chunk is such a message |
| HttpChunks.CollapseIsDrain | 3rd_party/mongoose.c:5602-5616 | collapsing stops where recognising chunk after chunk does and leaves the concatenated data |
| HttpChunks.OneTerminator | 3rd_party/mongoose.c:5602-5616 | the terminating chunk is met once, in the last receive that brings anything |
| HttpChunks.ReceivingNext | 3rd_party/mongoose.c:5592-5647 | each receive keeps headers, collapsed body and unread rest consistent with the chunks recognised so far |
| HttpChunks.ReceivedAll | 3rd_party/mongoose.c:5592-5647 | after the last receive the bodies taken and the body left make up the concatenation of the chunk data |
| HttpChunks.Connection.SendChunk | 3rd_party/mongoose.c:6607-6615 | the send buffer grows by the size in hexadecimal, the data and the line ends |
| HttpChunks.Connection.ReadChunk | 3rd_party/mongoose.c:5559-5590 | the reader finds a chunk at an offset if and only if one is complete there |
| HttpChunks.Connection.CollapseOne | 3rd_party/mongoose.c:5603-5616 | one turn moves the data of a chunk to the end of the body in place and loses nothing behind it |
| HttpChunks.Connection.CollapseBuffered | 3rd_party/mongoose.c:5602-5624 | the loop collapses all complete chunks in the receive buffer and closes the gap |
| HttpChunks.Connection.DeleteBody | 3rd_party/mongoose.c:5630-5637 | deleting the body keeps the headers and the unread octets |
| HttpChunks.Connection.HandleChunked | 3rd_party/mongoose.c:5592-5647 | one call reports the body so far if there is progress, deletes it when asked, and sets the message length at the terminator |
| HttpChunks.Connection.ReceiveMessage | 3rd_party/mongoose.c:5592-5647 | for every message whatever the spelling of its sizes, every split, and deletion receive by receive or not, the bodies reported and left are the concatenation of the chunk data; with deletion always, the reported bodies are that string |
| Sha1.CountsAdd | 3rd_party/mongoose.c:1167-1169 | the two-word counter stays eight times the length modulo 2^64, with the carry detected by wrap-around |
| Sha1.CountsExact | 3rd_party/mongoose.c:1187-1191 | below 2^61 octets the counter is the length in bits that the padding needs |
| Sha1.InitialOctets | 3rd_party/mongoose.c:1154-1161 | the octets of the initial state of section 5.3.1 of FIPS 180-4 |
| Sha1.Padding | 3rd_party/mongoose.c:1183-1205 | a padded message is the message, the octet 128, fewer than 64 zeros and the number of bits modulo 2^64 in network byte order, in whole blocks |
| Sha1.DigestWords | 3rd_party/mongoose.c:1198-1201 | the digest is the five words of the state in network byte order |
| Sha1.FewestZeros | 3rd_party/mongoose.c:1192-1197 | padding stops at the first block offset 56, after the fewest zeros |
| Sha1.Absorbed | 3rd_party/mongoose.c:1170-1180 | blocks and tail of the longer message are what an update leaves |
| Sha1.AbsorbFirst | 3rd_party/mongoose.c:1171-1173 | completing the buffered block extends the fold by one application |
| Sha1.Context.constructor | 3rd_party/mongoose.c:1154-1161 | a fresh context has absorbed the empty message and its state is that of section 5.3.1 of FIPS 180-4 |
| Sha1.Context.AddCount | 3rd_party/mongoose.c:1167-1169 | the counter counts the octets added |
| Sha1.Context.TransformBlocks | 3rd_party/mongoose.c:1174-1176 | whole blocks of the data are folded into the state |
| Sha1.Context.Update | 3rd_party/mongoose.c:1163-1181 | the context has absorbed the old message followed by the data |
| Sha1.Context.Final | 3rd_party/mongoose.c:1183-1205 | the digest is that of the message padded as in section 5.1.1 of FIPS 180-4, and the context is wiped |
| Sha1.Hashed | 3rd_party/mongoose.c:1154-1205 | the digest of any list of updates is that of their concatenation: it does not depend on the split |
| Glob.GreedyCorrect | 3rd_party/mongoose.c:9716-9760 | without a bar, a result of 0 or more is a length that the pattern matches, and -1 means that it matches no prefix |
| Glob.LongestCorrect | 3rd_party/mongoose.c:9749-9753 | trying the longest run first loses no match of the rest of the pattern |
| Glob.LongestFirst | 3rd_party/mongoose.c:9735-9753 | a star takes the longest run behind which the rest of the pattern matches |
| Glob.AnswerCaseBlind | 3rd_party/mongoose.c:9716-9760 | the result does not depend on the case of letters, in the pattern or in the string |
| Glob.Signs | 3rd_party/mongoose.c:9730-9760 | what each sign means by itself; any other octet matches itself and, for a letter, the other case |
| Glob.AnswerOfAlternatives | 3rd_party/mongoose.c:9721-9728 | with bars the result is that of one alternative, and no alternative before it has a positive one |
| Glob.AnswerPositive | 3rd_party/mongoose.c:9721-9728 | the result is positive if and only if some alternative's result is |
| Glob.AnswerNegative | 3rd_party/mongoose.c:9721-9728 | the result is -1 if and only if the last alternative matches nothing and no earlier one matches more than the empty prefix by its own result |
| Glob.EmptyMatchPassedOver | 3rd_party/mongoose.c:9721-9728 | the result is -1 although some alternative matches a prefix if and only if, besides, an earlier alternative has the result 0 |
| Glob.EmptyMatchExample | 3rd_party/mongoose.c:9721-9728 | one pattern and string where this happens |
| Glob.MatchPrefix | 3rd_party/mongoose.c:9716-9760 | the loop over both strings computes that result and terminates |
| Glob.MatchStar | 3rd_party/mongoose.c:9735-9753 | the loop over lengths of a starred run finds the longest one that works |
| UriPath.ParseComponent | 3rd_party/mongoose.c:4851-4863 | the component ends at the next slash or at the end |
| UriPath.Backtrack | 3rd_party/mongoose.c:5013-5015 | the write position goes back to just after the previous slash |
| UriPath.WriteComponent | 3rd_party/mongoose.c:5010-5019 | one component is dropped, undoes the last one or is moved, also when both buffers are one, and nothing unread is overwritten |
| UriPath.NormalizeUriPath | 3rd_party/mongoose.c:4995-5027 | for a path that starts with a slash the output is the result of section 5.2.4 of RFC 3986, whether or not output and input share a buffer; any other input is refused |
| UriPath.BackIsRemoveLast | 3rd_party/mongoose.c:5013-5015 | going back two slashes is removing the last segment |
| UriPath.NormalizingNext | 3rd_party/mongoose.c:5006-5021 | one turn of the two-pointer loop keeps output and rest in step with the algorithm of RFC 3986 |
| UriPath.RemovesDots | 3rd_party/mongoose.c:4995-5027 | no component "." or ".." is left |
| UriPath.LeavesNoDots | 3rd_party/mongoose.c:4995-5027 | a path without such components is left as it is |
| UriPath.NormalForm | 3rd_party/mongoose.c:4995-5027 | normalisation is idempotent and gives a path that starts with a slash and has no dot components |
| UriPath.NormalIsResolution | 3rd_party/mongoose.c:4995-5027 | normalising resolves the components one after the other: "." stays, ".." drops the last one kept, any other is kept, and dots at the end leave a final slash |
| UriPath.PathHasComponents | 3rd_party/mongoose.c:4995-5027 | every path that starts with a slash is made of such components |
| UriPath.DotDotUndoes | 3rd_party/mongoose.c:5013-5015 | a component and the ".." after it come to nothing, wherever they stand |
| DnsNames.EncodeName | 3rd_party/mongoose.c:10469-10496 | the buffer grows by the labels up to the first one that is too long and, if there is none, the final zero; the result is the length or -1 |
| DnsNames.LabelsJoin | 3rd_party/mongoose.c:10469-10496 | the labels joined with dots are the name |
| DnsNames.LabelsHaveNoDots | 3rd_party/mongoose.c:10469-10496 | no label has a dot in it |
| DnsNames.EncodeLabelsAt | 3rd_party/mongoose.c:10469-10496 | each label is written as its length and its octets, and the first one of more than 127 octets ends it |
| DnsNames.ExpandFrom | 3rd_party/mongoose.c:10675-10712 | whenever the loop ends it writes the expanded name, cut at the room there is, and no octet beyond the destination |
| DnsNames.UncompressName | 3rd_party/mongoose.c:10666-10713 | the same with the check of the offset: a name outside the packet gives the empty one |
| DnsNames.TakeTurn | 3rd_party/mongoose.c:10677-10707 | one turn of the loop on any packet: it reads where the octets send it, appends a label and its dot, and writes nothing beyond the destination |
| DnsNames.Follow | 3rd_party/mongoose.c:10677-10707 | after any number of turns on any packet, what is written and the room left make up the destination, and the next octet read is in the packet |
| DnsNames.EndsExactly | 3rd_party/mongoose.c:10677-10707 | on any packet the loop ends if and only if it does not come to an offset from which pointers alone lead back to it |
| DnsNames.PointerToItself | 3rd_party/mongoose.c:10683-10690 | on a pointer to itself it does not end |
| DnsNames.SameOutcome | 3rd_party/mongoose.c:10677-10707 | the expansion does not depend on the number of turns allowed for it |
| DnsNames.GoBackEnds | 3rd_party/mongoose.c:10677-10707 | it ends when every pointer read leads to an earlier offset, as section 4.1.4 of RFC 1035 asks |
| DnsNames.ReadsGoBack | 3rd_party/mongoose.c:10666-10713 | the offsets read for a name, compressed or not, are closed under its labels and its pointers go back |
| DnsNames.ExpandStands | 3rd_party/mongoose.c:10666-10713 | whatever labels stand at an offset, ended by a zero or by pointers to earlier offsets in any number, expansion gives them with their dots, cut at the room there is |
| DnsNames.EncodedStands | 3rd_party/mongoose.c:10469-10496 | encoded labels followed by a name stand as the labels of both |
| DnsNames.NameExpands | 3rd_party/mongoose.c:10666-10713 | every name that stands in a packet (section 4.1.4 of RFC 1035) is uncompressed in a bounded number of turns, whole to a larger destination and in part to a smaller one |
| DnsNames.NameRoundTrip | 3rd_party/mongoose.c:10469-10713 | uncompressing an encoded name anywhere in a packet gives the name back when the destination is larger, and its first octets otherwise |
| DnsNames.PointedNameRoundTrip | 3rd_party/mongoose.c:10469-10713 | labels that end with a pointer to an earlier encoded name uncompress to the labels followed by that name |
| CoapCodec.AddAllIsStableSort | 3rd_party/mongoose.c:11152-11198 | options added in any order come out sorted by number, those of one number in the order of addition |
| CoapCodec.PacketSizeRight | 3rd_party/mongoose.c:11521-11568 | the size computed beforehand is the length of what is written |
| CoapCodec.ComposedExactly | 3rd_party/mongoose.c:11521-11568 | a message is composed if and only if type, token, class and detail are in the ranges 3, 8, 7 and 31 and the options ascend with gaps and lengths of at most 65804; each flag names the first field out of range |
| CoapCodec.Layout | 3rd_party/mongoose.c:11588-11639 | version, type, token length, code and id in the header octets of section 3 of RFC 7252, then the token, and at the end the payload behind its marker |
| CoapCodec.ExtRoundTrip | 3rd_party/mongoose.c:11290-11318 | reading an extended delta or length inverts writing it for every value of 16 bits |
| CoapCodec.OptionsRoundTrip | 3rd_party/mongoose.c:11336-11418 | reading delta-coded options gives them back, each number modulo 2^16, and stops at the payload marker or the end |
| CoapCodec.OptionsThen | 3rd_party/mongoose.c:11336-11418 | whatever follows options is read as if it stood alone behind the last one |
| CoapCodec.ReservedBits | 3rd_party/mongoose.c:11356-11363 | after any options, four bits of 15 are a format error |
| CoapCodec.CutShort | 3rd_party/mongoose.c:11290-11400 | after any options, an option that the packet ends in is found to be cut short |
| CoapCodec.HeaderFaults | 3rd_party/mongoose.c:11205-11283 | each fault of the fixed header and of the token has its flags |
| CoapCodec.MarkerAlone | 3rd_party/mongoose.c:11400-11418 | a payload marker with nothing behind it is let pass and leaves no payload |
| CoapCodec.Reparsed | 3rd_party/mongoose.c:11420-11639 | what came of any packet can be composed, and the packet that this gives is parsed to the same fields |
| CoapCodec.CoapRoundTrip | 3rd_party/mongoose.c:11420-11639 | a composed message is parsed to the same type, code, id, token, options and payload (section 3.1 of RFC 7252) |
| CoapCodec.ParsesNarrow | 3rd_party/mongoose.c:11290-11318 | whatever the octets, the parser gives options of 16 bits |
| CoapCodec.RoundTripCondition | 3rd_party/mongoose.c:11420-11639 | the round trip holds if and only if every option number and length fits 16 bits |
| CoapCodec.WideRoundTrip | 3rd_party/mongoose.c:11290-11639 | a composed message whose values fit 16 bits is parsed to the same message with every option number modulo 2^16 and the options sorted anew |
| CoapCodec.WideNumbers | 3rd_party/mongoose.c:11290-11639 | a family of messages where this changes the numbers and their order |
| Coap.InsertAt | 3rd_party/mongoose.c:11170-11194 | the place that the search finds is the one after all options of the same or a smaller number |
| Coap.CoapMessage.FindPlace | 3rd_party/mongoose.c:11175-11184 | the walk along the list stops at the first option with a larger number |
| Coap.CoapMessage.Link | 3rd_party/mongoose.c:11162-11195 | linking by the tail pointer and linking after the walk insert at the same place |
| Coap.CoapMessage.AddOption | 3rd_party/mongoose.c:11152-11198 | the linked list holds the options with the new one inserted, and list, tail and nodes stay consistent |
| Coap.CoapMessage.FreeOptions | 3rd_party/mongoose.c:11144-11150 | no option is left |
| Coap.CoapMessage.CalculatePacketSize | 3rd_party/mongoose.c:11521-11568 | the flag of the first fault found, or the size of the packet |
| Coap.CoapMessage.ComposeOptions | 3rd_party/mongoose.c:11606-11630 | the options are written in order into the space reserved and nothing around it changes |
| Coap.CoapMessage.Compose | 3rd_party/mongoose.c:11570-11639 | the buffer grows by the encoded message, or stays and the fault is returned |
| Coap.CoapMessage.ParseHeader | 3rd_party/mongoose.c:11205-11262 | type, code, id and token length of the fixed header, or the flags of a malformed one |
| Coap.GetExtOpt | 3rd_party/mongoose.c:11290-11318 | an extended delta or length is read in 16 bits, or found to be cut short |
| Coap.ReadHead | 3rd_party/mongoose.c:11351-11389 | the number of an option and the place and length of its value, or the fault |
| Coap.CoapMessage.TakeOption | 3rd_party/mongoose.c:11351-11400 | the option is added before its length is checked, and a value that runs past the packet is a fault |
| Coap.CoapMessage.ParseToken | 3rd_party/mongoose.c:11269-11283 | the token of the recorded length is taken, or found to be cut short |
| Coap.CoapMessage.ParseOptions | 3rd_party/mongoose.c:11336-11418 | the loop builds the list of the options read and stops at the marker, at the end or at a fault |
| Coap.CoapMessage.Parse | 3rd_party/mongoose.c:11420-11445 | the message object holds the parsed message and the result is its flags |
| Coap.Exchange | 3rd_party/mongoose.c:11144-11639 | from adding options to parsing, on fields: composing fails exactly when a field is out of its range or the sorted options leave a gap or length above 65804, with the flag of that field; with numbers and lengths of 16 bits every message in range comes back as sent; otherwise it does exactly when they fit, and when the lengths fit the numbers come back modulo 2^16, sorted anew |
| UrlCodec.HexRoundTrip | 3rd_party/EdUrlParser.cpp:89-94 | two hexadecimal digits are read back as the octet they were printed for |
| UrlCodec.PercentRoundTrip | 3rd_party/EdUrlParser.cpp:31-94 | decoding inverts encoding on every string of octets below 128 |
| UrlCodec.EncodedChars | 3rd_party/EdUrlParser.cpp:68-87 | encoded text has no '=', '&', space or NUL, and is empty only for the empty string |
| UrlCodec.EncodedIsFree | 3rd_party/EdUrlParser.cpp:68-87 | encoded text has none of the characters that section 2.2 of RFC 3986 reserves, apart from '*' and the '+' that stands for a space |
| UrlCodec.LeftAsItIs | 3rd_party/EdUrlParser.cpp:71-77 | text is left as it is if and only if it has nothing but letters, digits and the four marks |
| UrlCodec.EscapeRead | 3rd_party/EdUrlParser.cpp:31-55 | an escape stands for the octet with its two digits in either case, and anything else behind a percent sign is an error |
| UrlCodec.UrlEncode | 3rd_party/EdUrlParser.cpp:68-87 | the loop computes the encoding |
| UrlCodec.UrlDecode | 3rd_party/EdUrlParser.cpp:31-66 | for text without NUL the loops compute the decoding, and errors give the empty string; with a NUL, what is left of the text and when an exception escapes |
| UrlCodec.OutcomeWithoutNul | 3rd_party/EdUrlParser.cpp:31-66 | without NUL the outcome for any text is the decoding |
| UrlCodec.BehindNul | 3rd_party/EdUrlParser.cpp:31-66 | what stands behind a NUL is lost up to the next plus sign or escape; a plus sign throws, and so does an escape unless it ends the text |
| Walks.WalkSpaces | 3rd_party/EdUrlParser.cpp:11-11 | the walk stops at the first character that is no space |
| Walks.WalkUntil | 3rd_party/EdUrlParser.cpp:12-14 | the walk stops at the first stop character or at the end |
| QueryString.SplitJoin | 3rd_party/EdUrlParser.cpp:213-260 | splitting inverts joining for pieces without the separator |
| QueryString.ItemsAtEquals | 3rd_party/EdUrlParser.cpp:250-254 | at '=' what was read becomes the key and an earlier key of the segment is forgotten |
| QueryString.ItemsAtAnd | 3rd_party/EdUrlParser.cpp:229-249 | at '&' the pair is complete and the key is cleared |
| QueryString.ParseKeyValue | 3rd_party/EdUrlParser.cpp:213-260 | the collection receives the kept pairs of the segments in order, and their number is returned; only spaces give (size_t) -1 |
| QueryString.ItemsExactly | 3rd_party/EdUrlParser.cpp:229-249 | of the pairs that the segments stand for, those are stored whose key and value are not empty in strict mode, and whose key or value is not empty in the other |
| QueryString.KeepAt | 3rd_party/EdUrlParser.cpp:235-243 | each pair is kept or dropped by that test on its own fields, in the order that there was |
| QueryString.ParseKeyValueList | 3rd_party/EdUrlParser.cpp:209-211 | the list grows by those pairs |
| QueryString.ParseKeyValueMap | 3rd_party/EdUrlParser.cpp:205-207 | the map is updated with those pairs one after another |
| QueryString.LastWins | 3rd_party/EdUrlParser.cpp:263-267 | the last pair with a key decides what the map holds for it |
| QueryString.OthersStay | 3rd_party/EdUrlParser.cpp:263-267 | keys that do not occur keep their entries |
| QueryString.MapAgreesWithList | 3rd_party/EdUrlParser.cpp:205-274 | for every string and either mode the map is the fold of the list, and both calls return the same count |
| QueryString.QueryRoundTrip | 3rd_party/EdUrlParser.cpp:68-260 | splitting the query string of any list of pairs gives the encoded pairs back, less those that the mode drops |
| QueryString.KeepsAll | 3rd_party/EdUrlParser.cpp:235-243 | nothing is dropped if and only if no key and no value is empty in strict mode, and no pair is wholly empty in the other |
| QueryString.PairsLost | 3rd_party/EdUrlParser.cpp:235-243 | a pair that each mode drops |
| QueryString.Exchange | 3rd_party/EdUrlParser.cpp:31-274 | encoding, joining, parsing and decoding a list gives it back, with its length as the count, if and only if no key and no value is empty in strict mode, and no pair is wholly empty in the other |
| UrlQuery.QueryFound | 3rd_party/EdUrlParser.cpp:68-177 | in a URL whose other parts are clean, any encoded pairs are found as its query and the rest as it was |
| UrlQuery.Travel | 3rd_party/EdUrlParser.cpp:31-274 | pairs written into a URL, found by parsing it, split and decoded come back under the same condition |
| UrlParser.EdUrlParser.ParseUrl | 3rd_party/EdUrlParser.cpp:179-184 | a new object holds the parts of the URL |
| UrlParser.EdUrlParser.ParseRaw | 3rd_party/EdUrlParser.cpp:114-134 | leading spaces, the scheme and its three characters, or the early ends without them |
| UrlParser.EdUrlParser.ParseHost | 3rd_party/EdUrlParser.cpp:137-151 | the host up to a colon, a slash or a question mark, and the jump that this takes |
| UrlParser.EdUrlParser.ParsePort | 3rd_party/EdUrlParser.cpp:153-160 | the port and the jump after it |
| UrlParser.EdUrlParser.ParsePath | 3rd_party/EdUrlParser.cpp:161-164 | the path up to the question mark |
| UrlParser.EdUrlParser.ParseParam | 3rd_party/EdUrlParser.cpp:165-175 | the query up to the hash sign, and the fragment |
| UrlParser.ParsedIsClean | 3rd_party/EdUrlParser.cpp:114-177 | whatever the input, no field holds a character that ends it |
| UrlParser.UrlRoundTrip | 3rd_party/EdUrlParser.cpp:114-177 | for every scheme, host, port, path, query and fragment, present or not, parsing the assembled URL recovers all of them if and only if none holds a character that ends it |
| UrlParser.HostWithColon | 3rd_party/EdUrlParser.cpp:137-160 | a host that begins with a colon comes back as a port |
| UrlParser.EveryInputIsAUrl | 3rd_party/EdUrlParser.cpp:114-177 | every input with a slash where a host can begin is the text of such a URL, and the fields are its components |
| UrlParser.Incomplete | 3rd_party/EdUrlParser.cpp:129-138 | any other input gives a scheme at the most |
| AmqpSteps.ReplyToRoundTrip | communication/amqp_client_c.cpp:105-119 | splitting reply-to recovers exchange and routing key if and only if the exchange has no delimiter, for every routing key |
| AmqpSteps.InvRun | communication/amqp_client_c.cpp:410-484 | over every run, with any number of messages, the table and the refused ids are what the log says and the accounts of bodies and marks balance |
| AmqpSteps.EntryNext | communication/amqp_client_c.cpp:434-447 | an id is in the table from its publication to its answer, with the body stored last since, and refused from its expiry to the message dropped for it |
| AmqpSteps.BalanceNext | communication/amqp_client_c.cpp:434-447 | per id, bodies stored are those answered, waiting and overwritten, and expiries are those used up, still marked and repeated |
| AmqpSteps.AnswerWasStored | communication/amqp_client_c.cpp:625-632 | in every run an answer is the body of the last message with the request's own id stored since the id was published or last answered |
| AmqpSteps.AnswerIsTheReply | communication/amqp_client_c.cpp:130-147 | with at most one reply that is not empty for an id, the answer is that reply and no id is answered twice |
| AmqpSteps.Conservation | communication/amqp_client_c.cpp:422-461 | each consumed message is stored, dropped or handed on as the log before it calls for, and the three add up to those received; every body stored is answered, waiting or overwritten |
| AmqpSteps.ObserversHear | communication/amqp_client_c.cpp:448-461 | over every run, each message handed on gives one call to each observer registered before it, in order of arrival and of registration, with the message's body, id and reply-to and no route, and there are no other calls |
| AmqpSteps.KeptWasReceived | communication/amqp_client_c.cpp:422-461 | per id, messages received are those stored, dropped and handed on |
| AmqpSteps.OverwritingTakesTwo | communication/amqp_client_c.cpp:434-447 | nothing is overwritten for an id that gets one message at most |
| AmqpSteps.OverwrittenNext | communication/amqp_client_c.cpp:434-447 | a step overwrites an answer of an id if and only if it consumes a message with that id while the entry has a body and no mark |
| AmqpSteps.OverwrittenRun | communication/amqp_client_c.cpp:410-484 | over any run the number of answers overwritten is the number of such steps |
| AmqpSteps.AskingRun | communication/amqp_client_c.cpp:99-114 | a run from the start to the state in which one question has been published, where the runs of `AmqpSteps.OverwritingRun` and `AmqpSteps.SecondReplyFills` go on |
| AmqpSteps.OverwritingRun | communication/amqp_client_c.cpp:434-447 | two replies to one question are a run with such a step: the second body stands and the first has gone to nobody |
| AmqpSteps.OthersUntouched | communication/amqp_client_c.cpp:422-461 | a step never changes the entry or the mark of an id that it is not about |
| AmqpSteps.OwnedRun | communication/amqp_client_c.cpp:99-128 | with generated ids that are new, two requests hold one id only after a message with it was handed on |
| AmqpSteps.LateStart | communication/amqp_client_c.cpp:130-138 | an outstanding request of any run that expires before any message with its id has come leaves an empty entry, a mark and no holder of the id |
| AmqpSteps.LateNext | communication/amqp_client_c.cpp:434-447 | every step keeps the account of the id: no message is handed on, the first one alone uses up the mark, and the entry has the body of the last one after it |
| AmqpSteps.LateReplyIsRefused | communication/amqp_client_c.cpp:130-140 | over any rest of the run, with any number of messages for the id, none is handed on, the first and no other is refused and uses up the mark, and the entry has the body of the last one after the first |
| AmqpSteps.EntryStaysEmpty | communication/amqp_client_c.cpp:130-140 | the entry stays empty over the rest of the run if and only if no message with the id after the first one has a body |
| AmqpSteps.SecondReplyFills | communication/amqp_client_c.cpp:434-447 | a run in which the entry does not stay empty: two messages after the expiry, of which the second has a body |
| AmqpObjects.AmqpClient.SendPackageAsync | communication/amqp_client_c.cpp:494-550 | a published message makes its id outstanding without touching an entry that exists; a failed publication changes nothing |
| AmqpObjects.AmqpClient.Poll | communication/amqp_client_c.cpp:410-484 | a consumed message is stored, uses up a mark or becomes one request with its body, id and reply-to that all observers are called with in order; all of it is stated on the fields of the client and of the request |
| AmqpObjects.AmqpClient.CheckResponseReadyness | communication/amqp_client_c.cpp:618-623 | ready means an entry that is not empty |
| AmqpObjects.AmqpClient.GetAsyncResponse | communication/amqp_client_c.cpp:625-632 | the body is returned and the entry goes |
| AmqpObjects.AmqpRequest.SendMessageAsync | communication/amqp_client_c.cpp:99-128 | a requester takes a new id and publishes to the route's target with its own mailbox as reply-to; a replier publishes to the split reply-to with the id it was asked with |
| AmqpObjects.AmqpRequest.CheckResponseReadyness | communication/amqp_client_c.cpp:130-141 | a request above the limit is marked as refused and loses its id; one within it changes nothing and reports whether the entry has a body |
| AmqpObjects.AmqpRequest.GetAsyncResponse | communication/amqp_client_c.cpp:143-147 | the answer to the request's own id is returned and the id cleared |
| AmqpObjects.Session.DoCheck | communication/amqp_client_c.cpp:130-141 | after a true check an answer that is not empty can be fetched |
| AmqpObjects.Session.Execute | communication/amqp_client_c.cpp:99-147 | any sequence of calls on client and requests is a run of the machine |
| AmqpNetwork.NetInvRun | communication/amqp_client_c.cpp:99-128 | in every run of any number of clients, questions carry the asker's mailbox as reply-to, replies carry the id of a sent message and go where its reply-to says, clients consume only what was addressed to them, and no two clients ask with one id |
| AmqpNetwork.RequestsWereSent | communication/amqp_client_c.cpp:448-461 | in any run a request that a client was handed carries the body and reply-to and, until it is cleared, the id of a message that some client sent |
| AmqpNetwork.RepliesGoBack | communication/amqp_client_c.cpp:116-127 | every reply that a client can send in any run: when the reply-to it answers is the name that replies carry, it goes there; otherwise it answers the question of a client, with its id, at the address in that question, which is that client's mailbox when its route is accepted |
| AmqpNetwork.ReplyToReply | communication/amqp_client_c.cpp:99-128 | a client whose reply came once more after it was fetched can answer it, and what it publishes names no mailbox |
| AmqpNetwork.ExceptionReached | communication/amqp_client_c.cpp:99-147 | a run of two clients whose routes lead to each other ends there: ask, reply, fetch, the reply repeated by the broker, a reply to it |
| AmqpNetwork.AnswersComeFromReplies | communication/amqp_client_c.cpp:99-147 | an answer that a client gets to its own id is the message that stands for it, came to its mailbox, and is a reply to its own question; or the question itself, and then the client asks its own mailbox; or a reply to a reply, and then its mailbox has the name that replies carry |
| AmqpNetwork.QuestionFrom | communication/amqp_client_c.cpp:434-447 | a question with an id that a client asked for is that client's own |

## Left out

- UrlCodec.UrlEncode: requires octets below 128; above, the code shifts a signed char. It appends each escape from three characters without a NUL behind them; the model takes the three.
- DnsNames.UncompressName: requires that the loop ends; it does if and only if the condition of `DnsNames.EndsExactly` holds, and `DnsNames.PointerToItself` is a packet where it does not.
- DnsNames.ExpandFrom: requires that the loop ends, for the same reason; `DnsNames.TakeTurn` speaks of every packet.
- Sha1.Context.Update: requires that what is buffered and the data are below 2^32 octets together, where the 32-bit index of the code does not wrap.
- Sha1.Hashed: requires updates of at most 2^32 - 64 octets, which keeps every one of them there.
- Mqtt.RoundTripCondition: requires a remaining length below 2^31, the range of the `int` that the receiver shifts; the same for the other results on publications.
- Coap.Exchange: requires a message id of 16 bits, as the field of the code has.
- HttpChunks.Connection.ReceiveMessage: stops at the end of one message; the next message on the same connection starts with the body length of this one.
- Mqtt.Connection.ReadLength: shifts without bound; on length fields of five or more octets the code shifts an int.
- Mqtt.NextTopic: requires a topic that ends inside the payload; the code does not look.
- MQTT: senders of CONNECT, CONNACK, UNSUBSCRIBE, SUBACK and of the commands without fields.
- Mqtt.Connection.ParseMqtt: the fields of CONNECT and CONNACK and topics that run past their packet are not modelled, nor is the message id left over from an earlier packet when the quality of service is 0.
- Mqtt.Connection.HandleReceived: reports CONNECT, CONNACK and the commands without fields with their undecoded body.
- WebSocket.Connection.DeliverData: fragments that are to be reassembled are left to reassembly, which is not modelled: the code's size field overwrites payload there.
- WebSocket.Connection.TakeFrame: covers frames that are not reassembled.
- WebSocket.Connection.HandleReceived: stops at a fragment that is to be reassembled.
- WebSocket: the closing flag set after a received close frame, which the code reads from a buffer that has moved on; which of two events a frame is reported with follows from its first octet.
- CoAP: the tail pointer left behind after the options are freed.
- AMQP: `sendPackageBlocked`, connection set-up and shutdown, threads and races of `asyncMode`, and publication order inside a callback: a reply from a callback is a step after the one that called the observers.
- AMQP: names and ids with a NUL, which the code passes on as C strings.
- AMQP: requests whose route pointer is null and calls that fail an assertion are not steps.
- URL positions above the range of `int`, and `parsePath`.
- Overflow of sizes, failing allocation and storage moved by a resize while pointers into it are held.
- The rounds of `cs_sha1_transform`; base64; WebDAV, CGI, SSI, files, sockets, TLS and the other back ends of mongoose.c.
- `communication/http_client.cpp`, `communication/webserver.cpp`, `communication/objrepr_listener.cpp` and the gateway: they connect libraries that are not part of this model.
