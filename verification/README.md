# Verified model of the protected video path

The repository streams H.264 video with object detection.  A server window takes frames from a
pipeline, hands some of them to an inference worker, draws the latest detections, encodes the
frames and sends them over RTSP and RTP to clients; a client reassembles the NAL units and feeds
them to a decoder.  This project models the parts of it that carry state or arithmetic, in Dafny,
and proves what they promise.

Three independent parts:

* **The media path** (`Bytes`, `AnnexB`, `Payload`, `Reassembly`, `Srtp`, `PacketStream`, `Sockets`,
  `RtspServer`, `RtspClient`, `NalDecoder`, `EndToEnd`), with what surrounds it: the two threads that
  write to one connection (`TcpWriters`), the encrypted control messages (`ControlChannel`), the
  signalling texts (`Text`, `Signalling`) and the key agreement (`Handshake`).
* **The ARIA cipher** in counter mode (`AriaTables`, `Network`, `ByteMatrix`, `Aria`, `AriaBlock`,
  `KeySchedule`, `Ctr`, `AriaCipher`).
* **Detection** (`Greedy`, `Nms`, `Decode`) and the **mailbox** between the window and the inference
  worker (`Mailbox`).

The first two meet in `EndToEnd.Relay`: the running server object, with its cipher, buffers and
sockets, connected by an arbitrarily chunked byte stream to the running client object.

How to read it.  Where the program changes things step by step, so does the model: classes with
the program's fields, methods that write into buffers, and the program's own loops.  Each such
method is proved against a specification function, and the laws are lemmas about these functions.
The two concurrent protocols are step models whose theorems hold for all interleavings.

Conventions of the model:

* Bytes are numbers below 256, and exclusive-or is defined bit by bit on them.  Machine integers
  are written out: 16-bit sequence numbers, 32-bit lengths and time stamps, the 64-bit frame count.
* HMAC, HKDF, ML-KEM, the random numbers, the inference network and the sigmoid are parameters.  Of
  ML-KEM only its correctness equation and sizes are used; of the sigmoid only that its values lie
  between 0 and 1.  No cryptographic strength is claimed.
* A send or receive transfers any part of what is asked for, or fails.  A ghost flag `clean` records
  that nothing has failed; statements about complete streams are made under it.
* Floating-point numbers are real numbers.  The library sort is known only by its contract: some
  descending permutation.
* The four substitution tables are written as decision trees over the index, which hold the same 256
  entries; two of them are proved to be the formulas they come from, and the others their inverses.

Where the code and its comments differ, the model follows the code.  Comments in the sender and the
receiver cite RFC 3711, but the tag covers only the bytes of the packet and every packet starts from
the session's IV, so the model states what the code computes and not that standard.  The receiver
never reads the sequence number, which is why only the loss patterns of `Reassembly` are promised.

## Model

| member | source | states |
|---|---|---|
| EndToEnd.Relay | src/rtsp_native/RtspServer.cpp:452-615 | The whole running path: access units through the server's sending methods, the TCP bytes in any chunking, and the client's receiving methods. With equal keys and no failed send or receive, the client signals exactly the NAL units of all access units if and only if every one of them is deliverable (over 1400 bytes, or of type 1 to 23) |
| EndToEnd.RelayAfterHandshake | src/rtsp_native/MlKemHandshake.cpp:282-288 | The same with no shared keys assumed: after both roles of the key agreement have succeeded on untampered messages, each side uses the keys of its own handshake object |
| EndToEnd.Connect | src/rtsp_native/MlKemHandshake.cpp:156-288 | From nothing shared: two new handshake objects exchange their messages, a new session gets the server's keys, and the run goes through it. Without a failed send or receive the exchange succeeds if and only if the library can encapsulate and expand, and then the client signals exactly the NAL units if and only if every one is deliverable |
| EndToEnd.RelayUdp | src/rtsp_native/RtspServer.cpp:610-615 | The whole path over UDP for any loss, repetition and reordering of the datagrams: the client signals what reassembly makes of exactly the payloads that arrive. With none lost and in order these are the NAL units if and only if every one is deliverable; with only last packets of units lost they are the units that arrive whole |
| EndToEnd.SendRun | src/rtsp_native/RtspServer.cpp:452-502 | A run of encoder callbacks puts on an active session exactly the packets of the specified sender, and leaves the session's next number and the frame count as specified |
| EndToEnd.SendOne | src/rtsp_native/RtspServer.cpp:452-502 | One callback: what an active session sends, its next number and the server's frame count afterwards |
| PacketStream.EndToEnd | src/rtsp_native/RtspClient.cpp:411-481 | For every sender state, key, list of access units and client without pending bytes (an empty buffer, or only stale bytes of no running reassembly): decoding the produced byte stream emits all NAL units in order if and only if all are deliverable |
| PacketStream.EncoderToClient | src/rtsp_native/RtspServer.cpp:459-546 | The same from the encoder's side, from every state of the client: access units joined from recoverable units with any mix of start codes arrive as exactly those units |
| PacketStream.PacketsDelivered | src/rtsp_native/RtspClient.cpp:411-549 | Any packets whose payloads carry a list of NAL units deliver that list to a client without pending bytes if and only if each NAL unit is deliverable |
| PacketStream.WireAccepted | src/rtsp_native/RtspClient.cpp:418-479 | The payloads accepted from the bytes of a list of packets are exactly the packets' payloads, in order |
| PacketStream.WireConcat | src/rtsp_native/RtspServer.cpp:593-608 | The bytes of two packet lists are the bytes of one after those of the other |
| PacketStream.WireIsFrames | src/rtsp_native/RtspServer.cpp:593-608 | On TCP a list of packets is its datagrams, each in a frame of its own |
| PacketStream.RunBytes | src/rtsp_native/RtspServer.cpp:560-591 | The bytes of every packet of a run: version 2, payload type 96, the number first plus j modulo 2^16, the time stamp of the unit's frame and the source, each at its place and most significant byte first, the marker exactly on the unit's last packet, then the encrypted payload, then ten bytes of the HMAC over all before |
| PacketStream.WrongTagIgnored | src/rtsp_native/RtspClient.cpp:443-458 | A packet whose tag is not the HMAC of the bytes before it, put in anywhere between frames or datagrams, changes nothing of what the client signals and keeps |
| PacketStream.DatagramsAccepted | src/rtsp_native/RtspClient.cpp:428-479 | The payloads accepted from a list of datagrams, received one by one, are exactly those sent |
| PacketStream.PickedAccepted | src/rtsp_native/RtspClient.cpp:428-479 | Of a sender's run over UDP, whatever datagrams arrive and in whatever order, repeated or not: the accepted payloads are those at the same positions |
| PacketStream.DatagramLoss | src/rtsp_native/RtspClient.cpp:428-549 | If of each NAL unit of a sender's run only the first datagrams arrive, possibly none, exactly the units that arrived whole are emitted, in order, from every state |
| PacketStream.RunNumbered | src/rtsp_native/RtspServer.cpp:563-577 | Packet k of a session's whole run carries its first number plus k modulo 2^16 and the session's source identifier, whatever the access units |
| PacketStream.RunFramed | src/rtsp_native/RtspServer.cpp:455-500 | Over a whole run, every packet of access unit n carries the clock of the first frame plus the number of non-empty units before n, modulo 2^64, and the marker exactly if it is the last packet of the unit |
| PacketStream.RunCounts | src/rtsp_native/RtspServer.cpp:455-457 | How many packets a run sends, and the frame counter it leaves, from the access units alone |
| PacketStream.UnitOf | src/rtsp_native/RtspServer.cpp:496-500 | Every packet of a run belongs to one access unit |
| PacketStream.StampPerSecond | src/rtsp_native/RtspServer.cpp:455-457 | While 90000 n stays below 2^64, fps further frames advance the time stamp by exactly 90000 modulo 2^32 |
| PacketStream.StampExact | src/rtsp_native/RtspServer.cpp:455-456 | The time stamp of every frame n: the whole part of (90000 n modulo 2^64) / fps, modulo 2^32 |
| PacketStream.NumberConcat | src/rtsp_native/RtspServer.cpp:493-501 | Numbering one list after another equals numbering them together, so units and fragments share one count |
| PacketStream.RunPayloads | src/rtsp_native/RtspServer.cpp:459-500 | The payloads of a run are the payloads of all NAL units of all its access units |
| RtspServer.RtspServer.SendNal | src/rtsp_native/RtspServer.cpp:452-502 | Every session that plays and has a transport gets the packets of the access unit under its own numbers and one common time stamp; every other session is untouched; nothing happens when stopped or empty |
| RtspServer.Distribute | src/rtsp_native/RtspServer.cpp:492-501 | The loop over the sessions serves each of them, independently of the others |
| RtspServer.ServeOne | src/rtsp_native/RtspServer.cpp:494-500 | One session: one that does not play or has no transport is left alone; any other sends exactly the packets of the access unit, on the connection or as datagrams, stated in the session's own fields |
| RtspServer.Session.SendUnits | src/rtsp_native/RtspServer.cpp:496-500 | The NAL units of one access unit leave as consecutive packets, the marker on the very last |
| RtspServer.Session.SendNalToSession | src/rtsp_native/RtspServer.cpp:509-546 | One NAL unit leaves as one packet or as its fragments, numbered from the session's counter; the pointer arithmetic stays inside the unit |
| RtspServer.Session.SendRtpPacket | src/rtsp_native/RtspServer.cpp:556-615 | One packet: the counter moves by one modulo 2^16, and the frame or the datagram is exactly the protected packet |
| RtspServer.Session.BuildPacket | src/rtsp_native/RtspServer.cpp:558-591 | Header, in-place encryption and truncated tag inside the fixed buffer give exactly the protected packet, with each field at its place, for every payload up to 1402 bytes |
| RtspServer.BuildFragment | src/rtsp_native/RtspServer.cpp:526-537 | The fragment buffer holds both FU bytes and the slice of the unit, without leaving its 1402 bytes |
| RtspServer.SendFrame | src/rtsp_native/RtspServer.cpp:593-608 | Unless a send fails, exactly one interleaved frame is added to the connection, over any partial sends |
| RtspServer.WriteHeader | src/rtsp_native/RtspServer.cpp:560-572 | The shifts and masks write the twelve header bytes of RFC 3550 section 5.1: marker, payload type, number, time stamp and source read back from their places |
| RtspServer.AppendTag | src/rtsp_native/RtspServer.cpp:588-591 | Ten digest bytes follow the packet and nothing before them changes |
| RtspClient.RtspClient.RtpLoop | src/rtsp_native/RtspClient.cpp:418-427 | The loop over the interleaved stream: what it signals and leaves in its buffer is the reassembly of the accepted payloads of the stream; after a failed receive it is a prefix of that |
| RtspClient.RtspClient.RtpLoopUdp | src/rtsp_native/RtspClient.cpp:428-480 | The loop over UDP, for any sequence of datagrams, retries and errors: the reassembly of the payloads accepted from the datagrams before the first error, each cut to the buffer |
| RtspClient.RtspClient.ProcessPacket | src/rtsp_native/RtspClient.cpp:438-479 | One packet: dropped without effect if too short, if its last ten bytes are not the HMAC of those before, or if malformed; else its decrypted payload is handled |
| RtspClient.RtspClient.ParseHeader | src/rtsp_native/RtspClient.cpp:460-473 | The header length with contributing sources and extension, or a refusal, exactly as specified |
| RtspClient.RtspClient.ReadFrame | src/rtsp_native/RtspClient.cpp:418-427 | Reads exactly the next frame, over any partial receives; stops exactly when there is none |
| RtspClient.RtspClient.HandleRtpPayload | src/rtsp_native/RtspClient.cpp:486-549 | Signals and reassembly state follow the payload state machine: single units, aggregates, fragments, everything else ignored |
| RtspClient.RtspClient.HandleStapA | src/rtsp_native/RtspClient.cpp:499-511 | The loop over an aggregate signals exactly the units whose sizes fit, without reading past its end |
| RtspClient.RtspClient.HandleFuA | src/rtsp_native/RtspClient.cpp:513-545 | One fragment: buffer, flag and signal afterwards as specified, from every state |
| RtspClient.StepOfStream | src/rtsp_native/RtspClient.cpp:414-480 | One round of the loop against the specification: the rest of the stream is shorter and the outcomes compose |
| Srtp.UnprotectProtect | src/rtsp_native/RtspClient.cpp:438-479 | Verifying and decrypting a protected packet returns the payload |
| Srtp.ProtectedFields | src/rtsp_native/RtspServer.cpp:560-591 | Byte by byte, what a sent packet is: the header fields read back from their places, the encrypted payload, and ten bytes of the HMAC over all before |
| Srtp.WrongTagRefused | src/rtsp_native/RtspClient.cpp:443-458 | Any bytes with any other tag than the first ten bytes of their HMAC are refused |
| Srtp.AcceptedIsAuthentic | src/rtsp_native/RtspClient.cpp:438-458 | An accepted packet has more than 22 bytes and ends in the HMAC of all before its last ten |
| Srtp.AnyHeaderSkipped | src/rtsp_native/RtspClient.cpp:460-478 | The payload is found behind a header with any number of contributors and any extension |
| Srtp.NoPayloadRefused | src/rtsp_native/RtspClient.cpp:464-477 | A packet that ends inside such a header, or right behind it, is refused although its tag is right |
| Srtp.FrameFields | src/rtsp_native/RtspServer.cpp:594-599 | A frame is `$`, the channel, the length in two bytes, most significant first, and the packet |
| Srtp.NextExactly | src/rtsp_native/RtspClient.cpp:419-427 | The next packet of a stream is read if and only if the stream begins with such a frame of 1 to 2048 bytes |
| Srtp.RefusedInStream | src/rtsp_native/RtspClient.cpp:438-458 | A refused packet between others of a stream leaves no trace in what is accepted |
| Srtp.RefusedDatagram | src/rtsp_native/RtspClient.cpp:438-458 | The same between datagrams |
| Srtp.NextOfFrame | src/rtsp_native/RtspClient.cpp:419-427 | A frame is cut from a longer stream as it was framed |
| Srtp.AcceptedFrame | src/rtsp_native/RtspClient.cpp:418-479 | A protected, framed packet of any size up to the receive buffer yields its payload first and then what follows |
| Payload.FragmentShape | src/rtsp_native/RtspServer.cpp:516-544 | RFC 6184 section 5.8 for a NAL unit over 1400 bytes: ceil((size-1)/1398) payloads, at least 2, each at most 1400 bytes, type 28 with the unit's F and NRI bits, then S (0x80) on the first only, E (0x40) on the last only and the unit's type, then 1398 bytes of the unit, or what is left |
| Payload.FragmentAt | src/rtsp_native/RtspServer.cpp:525-544 | Fragment k in closed form, for every k |
| Payload.FragmentsRebuild | src/rtsp_native/RtspClient.cpp:524-540 | Header byte and fragment bodies put together are the NAL unit |
| Payload.PayloadSizes | src/rtsp_native/RtspServer.cpp:512-545 | Every NAL unit has at least one payload, none empty and none over 1400 bytes; a unit is its own payload exactly if it has at most 1400 bytes |
| Reassembly.DeliverNal | src/rtsp_native/RtspClient.cpp:486-549 | The payloads of a deliverable NAL unit emit exactly that unit from any state |
| Reassembly.DeliverAll | src/rtsp_native/RtspClient.cpp:486-549 | The payloads of any list of deliverable NAL units emit exactly the list from any state |
| Reassembly.DeliveryExact | src/rtsp_native/RtspClient.cpp:489-548 | With an empty buffer, or while no reassembly is running whatever the buffer holds, a list comes out unchanged if and only if every unit is deliverable, so the condition is exact |
| Reassembly.DeliverableMeaning | src/rtsp_native/RtspClient.cpp:489-489 | Deliverable are the units over 1400 bytes, and those whose low five header bits are from 1 to 23 |
| Reassembly.SingleOrForeign | src/rtsp_native/RtspClient.cpp:489-495 | A single unit is signalled as it is, other types than 1 to 24 and 28 are ignored, and neither touches a unit in reassembly |
| Reassembly.AggregateDelivered | src/rtsp_native/RtspClient.cpp:497-511 | Of an aggregate exactly the units packed in it are signalled, in order, a cut-off piece at its end is dropped, and a unit in reassembly stays as it is |
| Reassembly.FragmentMeaning | src/rtsp_native/RtspClient.cpp:513-545 | For any two header bytes and in every state: what a fragment with or without S and E does to the unit in reassembly, and what is signalled |
| Reassembly.TailLoss | src/rtsp_native/RtspClient.cpp:513-545 | If every NAL unit keeps only a prefix of its packets, possibly none, exactly the complete ones are emitted, in order, from every state |
| Reassembly.PartialNal | src/rtsp_native/RtspClient.cpp:524-544 | One unit with its tail lost emits itself if complete and nothing otherwise |
| Reassembly.JoinMidNal | src/rtsp_native/RtspClient.cpp:532-532 | A client that joins inside a NAL unit ignores its remaining packets and receives everything after it |
| Reassembly.GapDelivery | src/rtsp_native/RtspClient.cpp:513-545 | Losing any fragments of one long unit, in every state of the client: something is emitted if and only if the last fragment arrives and either the first does or an earlier unit was cut off; it is the unit if and only if all fragments arrive, or the bytes left of the earlier unit happen to complete it |
| Reassembly.GapEmission | src/rtsp_native/RtspClient.cpp:524-544 | What exactly is emitted then, in every state: with the first fragment, what arrived of the unit; without it, what arrived glued to the bytes of an earlier unit whose end was lost |
| Reassembly.GluedUnits | src/rtsp_native/RtspClient.cpp:532-541 | If the end of one unit and the start of the next are lost but not its last fragment, the client emits one unit from both, in every state: the start of the first with what arrived of the second |
| Reassembly.BurstLoss | src/rtsp_native/RtspClient.cpp:532-541 | The exact effect of one burst of losses across two long units, in every state: the first 1 + 1398 k bytes of one with the bytes of the other from 1 + 1398 m on. That is the second unit if and only if k = m and both agree on these first bytes, the first unit if and only if both end in the same bytes, and otherwise neither |
| Payload.BodiesSplit | src/rtsp_native/RtspServer.cpp:525-544 | The first k fragments of a long unit carry its first 1 + 1398 k bytes, and the other fragments carry the rest |
| AnnexB.ExtractNals | src/rtsp_native/RtspServer.cpp:459-490 | On every byte string the nested scan yields the specified segments, terminates, and takes the skip branch once for each byte before the first start code and never again |
| AnnexB.FindEnd | src/rtsp_native/RtspServer.cpp:476-484 | The inner scan stops at the first place where a start code begins, or at the end |
| AnnexB.SplitClean | src/rtsp_native/RtspServer.cpp:486-488 | No NAL unit of any byte string is empty or holds 00 00 01 |
| AnnexB.Decompose | src/rtsp_native/RtspServer.cpp:459-490 | Every byte string is a beginning in which no start code begins, followed by units with their start codes in one canonical form, and splitting yields exactly the non-empty units of it, in order |
| AnnexB.LeadInIgnored | src/rtsp_native/RtspServer.cpp:471-474 | Bytes before the first start code belong to no unit |
| AnnexB.SplitJoin | src/rtsp_native/RtspServer.cpp:459-490 | Splitting joined clean units gives each of them without a final zero that a following three-byte code takes over, empty ones dropped |
| AnnexB.JoinRoundTrip | src/rtsp_native/RtspServer.cpp:459-490 | Joining and splitting returns the list if and only if every unit is non-empty, clean, and does not end in zero before a three-byte code (ITU-T H.264 Annex B) |
| AnnexB.SegmentStep | src/rtsp_native/RtspServer.cpp:475-489 | One round of the outer loop takes the first segment of the remaining ones |
| NalDecoder.NalDecoderPipeline.PushNal | src/gstreamer/NalDecoderPipeline.cpp:131-152 | A non-empty unit is fed after a four-byte start code while running; otherwise nothing is fed |
| NalDecoder.RefeedStable | src/gstreamer/NalDecoderPipeline.cpp:137-148 | For every byte string, prefixing its units again and splitting again gives the same units |
| NalDecoder.RefeedReproduces | src/gstreamer/NalDecoderPipeline.cpp:137-148 | When all start codes had four bytes, prefixing reproduces the original bytes |
| Sockets.OutSocket.SendAll | src/rtsp_native/MlKemHandshake.cpp:18-27 | The send loop transfers everything or reports a failure, with a prefix sent |
| Sockets.InSocket.RecvAll | src/rtsp_native/MlKemHandshake.cpp:29-38 | The receive loop places exactly the next bytes of the stream, over any partial receives, and fails without a receive error only if the stream is too short |
| TcpWriters.WholeExactly | src/rtsp_native/RtspServer.cpp:315-316 | For every history of requests and every list of answers to it: all interleavings with all packets of the sender's form (at least 23 bytes, 0x80 first), with partial writes, leave whole records in each thread's order if and only if no UDP set-up arrives while the session plays over TCP |
| TcpWriters.HarmlessMeaning | src/rtsp_native/RtspServer.cpp:315-316 | Which histories these are: in none of them is there a UDP set-up behind a PLAY whose last set-up before was for TCP |
| TcpWriters.ModeMeaning | src/rtsp_native/RtspServer.cpp:315-366 | The settings after a history: it plays once there was a PLAY, over TCP if the last set-up was for TCP |
| TcpWriters.WholeRecords | src/rtsp_native/RtspServer.cpp:593-608 | At any time of a run with such a history the connection begins with the complete records in each thread's order, and when both threads are quiet a reader separates exactly these |
| TcpWriters.ParseStream | src/rtsp_native/RtspClient.cpp:419-427 | A concatenation of records is separated in exactly one way, because `$` never begins a control length |
| TcpWriters.HeadTellsKind | src/rtsp_native/RtspServer.cpp:595-599 | The first byte of a record is 0x24 exactly for interleaved packets |
| TcpWriters.NextKeepsInv | src/rtsp_native/RtspServer.cpp:212-219 | Every step that is not such a set-up keeps the lock discipline and the shape of the connection |
| TcpWriters.BreakingRun | src/rtsp_native/RtspServer.cpp:212-219 | Every other history has, whatever answers of 1 to 2^24 - 1 bytes and whatever packet that is not empty and does not begin with 0 the threads write, a run that ends quietly with exactly these answers and this packet, and an answer inside the packet |
| TcpWriters.ProtectedForm | src/rtsp_native/RtspServer.cpp:558-591 | The packets that the sender builds have that form |
| TcpWriters.PlayAnswerExactly | src/rtsp_native/RtspServer.cpp:365-375 | For every history and every list of answers: the answer to the first PLAY is complete before every packet, in all interleavings, if and only if that PLAY does not find the session set up for TCP |
| TcpWriters.PlayMeaning | src/rtsp_native/RtspServer.cpp:365-366 | Which histories these are: those without a PLAY, and those in which the last set-up before the first PLAY, if any, was not for TCP |
| TcpWriters.EarlyPacketRun | src/rtsp_native/RtspServer.cpp:365-375 | Every history whose first PLAY finds a TCP session has, whatever the threads write, a run with a whole packet before the answer to it |
| TcpWriters.BrokenIsNotWhole | src/rtsp_native/RtspClient.cpp:419-427 | Then the bytes are not whole records of the two threads, in whatever way they are cut |
| TcpWriters.MediaIsFrame | src/rtsp_native/RtspServer.cpp:594-608 | The record of a packet is the sender's frame |
| TcpWriters.ControlIsFramed | src/rtsp_native/RtspServer.cpp:196-210 | The record of an encrypted message is the framed message |
| ControlChannel.SendEncrypted | src/rtsp_native/RtspServer.cpp:196-210 | A success adds exactly the framed, encrypted message; a failure leaves a prefix of it and means that a send failed or that only some of the four length bytes were taken |
| ControlChannel.FramedFields | src/rtsp_native/RtspServer.cpp:197-200 | The framed message is its length in four bytes, most significant first, and the encrypted text |
| ControlChannel.RecvEncrypted | src/rtsp_native/RtspServer.cpp:224-248 | Returns exactly the next message of the stream and leaves the rest; without a receive error it fails exactly when there is none |
| ControlChannel.MessageArrives | src/rtsp_native/RtspServer.cpp:234-247 | A message is read back unchanged, whatever follows it, if and only if its length is from 1 to 65536 |
| ControlChannel.ThroughExactly | src/rtsp_native/RtspServer.cpp:234-247 | A text of fewer than 2^32 one-byte characters is either received as it is, exactly if its length is from 1 to 65536, or refused |
| ControlChannel.ConversationArrives | src/rtsp_native/RtspClient.cpp:235-294 | A sequence of messages is read back unchanged if and only if every length is acceptable |
| ControlChannel.TextArrives | src/rtsp_native/RtspServer.cpp:234-247 | A text of one-byte characters goes through unchanged if and only if its length is from 1 to 65536 |
| Handshake.SendHandshakeMsg | src/rtsp_native/MlKemHandshake.cpp:44-55 | Type, version, random number and payload, whole, or a prefix if a send failed, and only then |
| Handshake.RecvHandshakeMsg | src/rtsp_native/MlKemHandshake.cpp:57-74 | Without a receive error: the random number and payload of the next message exactly if it is whole and of the expected type and version |
| Handshake.Agreement | src/rtsp_native/MlKemHandshake.cpp:156-276 | For every pair of untampered streams on which both roles succeed, both derive the same key material, by the correctness equation of the mechanism |
| Handshake.MessageBytes | src/rtsp_native/MlKemHandshake.cpp:44-55 | The bytes of both messages: type 2 or 1, version 3.4, the random number, the key or ciphertext |
| Handshake.ServerKeysExactly | src/rtsp_native/MlKemHandshake.cpp:85-110 | The server derives keys exactly from a stream that begins with a whole client message whose ciphertext the library can decapsulate, by HKDF with the client's and then the server's random number as salt and the fixed label |
| Handshake.ClientKeysExactly | src/rtsp_native/MlKemHandshake.cpp:229-276 | The client answers exactly a whole server message to whose key the library can encapsulate, with type 1, its random number and the ciphertext, and derives keys with the same salt and label |
| Handshake.MlKemHandshake.DeriveKeys | src/rtsp_native/MlKemHandshake.cpp:85-144 | Succeeds exactly if the library does; then the five fields hold the slices of the derived material, and otherwise nothing has changed |
| Handshake.MlKemHandshake.PerformServerHandshake | src/rtsp_native/MlKemHandshake.cpp:156-218 | Without a socket error, and with key, random number and public key at hand: succeeds exactly if the stream begins with a message from which keys can be derived. Then exactly the hello was sent, one message was read, and the fields hold the keys; a failure changes no field |
| Handshake.MlKemHandshake.PerformClientHandshake | src/rtsp_native/MlKemHandshake.cpp:229-276 | The same for the client |
| Handshake.Shake | src/rtsp_native/MlKemHandshake.cpp:156-276 | The exchange of two objects, the client on what the server sends and the server on what the client sends: a success is a completed exchange, and without a failed send or receive it succeeds if and only if the library can encapsulate to the server's key and expand the secret |
| Handshake.HonestServer | src/rtsp_native/MlKemHandshake.cpp:189-217 | On the honest client's answer the server derives exactly the client's key material |
| Handshake.SameKeys | src/rtsp_native/MlKemHandshake.cpp:125-140 | Equal material means five equal keys: bytes 0-16, 16-32, 32-52, 52-68 and 68-84 |
| Handshake.PeersShareKeys | src/rtsp_native/MlKemHandshake.cpp:156-276 | After both roles succeed on untampered messages, both objects hold the same five keys |
| Handshake.PeersShareCiphers | src/rtsp_native/MlKemHandshake.cpp:282-296 | After both roles succeed on untampered messages, each peer's media and control cipher undoes the other's on every buffer, and the authentication keys are equal |
| Handshake.MlKemHandshake.CreateSrtpCipher | src/rtsp_native/MlKemHandshake.cpp:282-288 | Nothing before completion, afterwards a ready cipher with the media key and IV |
| Handshake.MlKemHandshake.CreateRtspCipher | src/rtsp_native/MlKemHandshake.cpp:290-296 | Nothing before completion, afterwards a ready cipher with the control key and IV |
| Network.EncryptUndone | src/crypto/AriaCipher.cpp:274-291 | For any invertible substitution and linear involutive diffusion, and any even number of rounds from 2 on, the encryption routine run with reversed keys, the inner ones diffused, undoes itself (RFC 5794 section 2.2) |
| Network.DecryptionState | src/crypto/AriaCipher.cpp:280-286 | The state after each decryption round is the diffused, keyed state of the matching encryption round |
| Network.DecryptionKeysTwice | src/crypto/AriaCipher.cpp:274-291 | The decryption keys of the decryption keys are the encryption keys |
| Aria.AriaUndone | src/crypto/AriaCipher.cpp:274-291 | The code's own tables and diffusion satisfy this: decryption undoes encryption for all keys and blocks |
| Aria.AriaIsPermutation | src/crypto/AriaCipher.cpp:274-291 | For all round keys the routine is a one-to-one map onto all 128-bit blocks |
| Aria.AriaInvertible | src/crypto/AriaCipher.cpp:130-169 | The substitution layers are mutual inverses and the diffusion is linear and its own inverse |
| Aria.MatrixSquare | src/crypto/AriaCipher.cpp:152-169 | The square of the 16 by 16 diffusion matrix is the identity |
| Aria.SubstituteInverse | src/crypto/AriaCipher.cpp:130-146 | SL1 and SL2 undo each other for any paired tables |
| Aria.BoxesPaired | src/crypto/AriaCipher.cpp:20-94 | The four tables of the code pair up as inverses |
| AriaTables.Sb3UndoesSb1 | src/crypto/AriaCipher.cpp:20-75 | sb3 undoes sb1 on every byte |
| AriaTables.Sb1UndoesSb3 | src/crypto/AriaCipher.cpp:20-75 | sb1 undoes sb3 on every byte |
| AriaTables.Sb4UndoesSb2 | src/crypto/AriaCipher.cpp:39-94 | sb4 undoes sb2 on every byte |
| AriaTables.Sb2UndoesSb4 | src/crypto/AriaCipher.cpp:39-94 | sb2 undoes sb4 on every byte |
| AriaTables.Box1IsInverse | src/crypto/AriaCipher.cpp:20-37 | sb1 is the inverse in GF(2^8) followed by an affine map, for all 256 entries |
| AriaTables.Box2IsInverse | src/crypto/AriaCipher.cpp:39-56 | sb2 is the inverse in GF(2^8) followed by another affine map, for all 256 entries |
| AriaTables.SbIsInverse | src/crypto/AriaCipher.cpp:20-56 | Both on bytes, as the block routines use the tables |
| ByteMatrix.ApplyLinear | src/crypto/AriaCipher.cpp:152-169 | A byte matrix is additive, for every list of rows |
| ByteMatrix.ApplyInvolution | src/crypto/AriaCipher.cpp:152-169 | A byte matrix whose square is the identity undoes itself |
| AriaBlock.EncryptBlock | src/crypto/AriaCipher.cpp:274-291 | The loop over pairs of rounds computes the specified encryption, also when input and output are one array |
| AriaBlock.EncryptionRounds | src/crypto/AriaCipher.cpp:280-290 | Rounds with SL1 and with SL2 take turns from the plain text on, and the last one is SL2 between two keys without diffusion |
| AriaBlock.RowFormulas | src/crypto/AriaCipher.cpp:152-169 | Each of the sixteen output bytes of the diffusion as the XOR of its seven input bytes |
| AriaBlock.OddColumns | src/crypto/AriaCipher.cpp:130-137 | SL1 takes the tables 1, 2, 3, 4 in turn |
| AriaBlock.EvenColumns | src/crypto/AriaCipher.cpp:139-146 | SL2 takes the tables 3, 4, 1, 2 in turn |
| AriaBlock.DiffA | src/crypto/AriaCipher.cpp:152-169 | The sixteen assignments compute the matrix product |
| AriaBlock.Sl1 | src/crypto/AriaCipher.cpp:130-137 | The loop applies the odd substitution layer after adding the round key, also in place |
| AriaBlock.Sl2 | src/crypto/AriaCipher.cpp:139-146 | The same for the even layer |
| AriaBlock.FO | src/crypto/AriaCipher.cpp:176-180 | The odd round, also in place |
| AriaBlock.FE | src/crypto/AriaCipher.cpp:182-186 | The even round, also in place |
| KeySchedule.RotXorBit | src/crypto/AriaCipher.cpp:192-203 | For every n below 128, bit k of the routine's result is bit k of one operand XOR bit k - n modulo 128 of the other: a true rotation of the whole 128-bit string |
| KeySchedule.Rotnr | src/crypto/AriaCipher.cpp:192-203 | The byte loops with shifts compute that rotation |
| KeySchedule.RoundKeyBit | src/crypto/AriaCipher.cpp:246-269 | RFC 5794 section 2.2: bit k of every round key is bit k of one word XOR bit k + 109, 97, 61, 31 or 19 modulo 128 of the next, for the keys 0-3, 4-7, 8-11, 12-15 and 16 |
| KeySchedule.Words | src/crypto/AriaCipher.cpp:216-244 | The four words for each key size: the first 16 bytes, then three Feistel steps with the remaining bytes, padded with zeros, and the three constants in the order of that key size |
| KeySchedule.ConstantOrder | src/crypto/AriaCipher.cpp:218-237 | That order, and 12, 14 or 16 rounds |
| KeySchedule.ConstantWords | src/crypto/AriaCipher.cpp:98-111 | The three constants in 32-bit words |
| KeySchedule.Initialise | src/crypto/AriaCipher.cpp:239-244 | The Feistel steps that make W1, W2 and W3, with the buffer reused as in the code |
| KeySchedule.SetEncryptKey | src/crypto/AriaCipher.cpp:213-270 | For 16, 24 and 32 key bytes: the number of rounds, and every round key that encryption uses has been set to its specified value |
| Ctr.IncrementCounter | src/crypto/AriaCipher.cpp:295-301 | The in-place carry loop computes the specified increment |
| Ctr.IncrementValue | src/crypto/AriaCipher.cpp:295-301 | It adds one to the big-endian value and wraps at the top |
| Ctr.IncrementCarry | src/crypto/AriaCipher.cpp:295-301 | Byte by byte: bytes of 255 at the end become 0 and the byte before them one more |
| Ctr.TransformByte | src/crypto/AriaCipher.cpp:360-379 | Byte i is XORed with byte i mod 16 of the encrypted counter IV + i/16 modulo 2^128 |
| AriaCipher.AriaCtrByte | src/crypto/AriaCipher.cpp:360-379 | The same for this cipher under every key |
| Ctr.TransformTwice | src/crypto/AriaCipher.cpp:360-379 | Applying the transform twice restores every buffer |
| Ctr.KeystreamDistinct | src/crypto/AriaCipher.cpp:360-379 | For an injective block function, keystream blocks less than 2^128 apart differ |
| AriaCipher.AriaKeystreamDistinct | src/crypto/AriaCipher.cpp:360-379 | So they do for this cipher, with every key and IV |
| AriaCipher.AriaCipher.CtrTransform | src/crypto/AriaCipher.cpp:360-379 | The in-place loop with its counter and keystream buffers computes the transform of exactly the given range |
| AriaCipher.AriaCipher.Encrypt | src/crypto/AriaCipher.cpp:332-336 | Transforms the range if key and IV are set, else changes nothing and says so |
| AriaCipher.AriaCipher.Decrypt | src/crypto/AriaCipher.cpp:338-342 | The same transform |
| AriaCipher.AriaCipher.SetKey | src/crypto/AriaCipher.cpp:313-319 | Accepts exactly 16, 24 or 32 bytes and expands them; a refused key changes nothing |
| AriaCipher.AriaCipher.SetIv | src/crypto/AriaCipher.cpp:325-330 | Accepts exactly 16 bytes; a refused IV changes nothing |
| AriaCipher.AriaCipher.ProcessBlock | src/crypto/AriaCipher.cpp:356-358 | One block through the stored round keys |
| AriaCipher.CipherSelfInverse | src/crypto/AriaCipher.cpp:332-342 | With equal key and IV, the cipher keeps lengths and undoes itself on every buffer |
| Greedy.StableIsGreedy | src/PostProcessor.cpp:34-46 | The greedy selection is the only marking in which an item is kept exactly when no kept item before it clashes with it |
| Greedy.FilterCommutes | src/PostProcessor.cpp:41-44 | Selecting and filtering commute when clashes stay on one side of the filter |
| Greedy.SelectionReordered | src/PostProcessor.cpp:24-48 | A selection walked again in any order is kept whole, for symmetric clashes |
| Nms.Nms | src/PostProcessor.cpp:24-48 | Sorting in place and the nested loops over the `suppressed` array return exactly the greedy set of a descending permutation: a box is kept if and only if no kept earlier box of its class overlaps it above the threshold |
| Nms.Suppress | src/PostProcessor.cpp:40-45 | The inner loop sets exactly the flags of later boxes of the class with overlap above the threshold |
| Nms.Iou | src/PostProcessor.cpp:10-22 | The overlap of boxes with ordered corners lies in [0, 1) |
| Nms.IouIsRatio | src/PostProcessor.cpp:10-22 | It is the area in both boxes over the area in either of them plus a millionth, all written from the corners |
| Nms.IouInside | src/PostProcessor.cpp:10-22 | A box inside another overlaps it by its share of the area; so equal boxes of area s overlap by s / (s + 0.000001) |
| Nms.IouSymmetric | src/PostProcessor.cpp:10-22 | The overlap is symmetric |
| Nms.IouPositive | src/PostProcessor.cpp:10-22 | It is positive exactly when the boxes share an area |
| Nms.KeptBoxes | src/PostProcessor.cpp:34-46 | Kept boxes are in descending order, and those of one class overlap at most by the threshold |
| Nms.DroppedBoxes | src/PostProcessor.cpp:40-45 | Every dropped box has a kept box of its class, of no lower confidence, that overlaps it above the threshold |
| Nms.EveryResult | src/PostProcessor.cpp:24-48 | In whatever order the sort leaves equal confidences: the result holds given boxes only, descending, same-class pairs at or below the threshold, and every other given box is dominated by a kept one |
| Nms.PerClass | src/PostProcessor.cpp:41-44 | Restricting the result to a class is running on that class alone, for any fixed order |
| Nms.RunAgain | src/PostProcessor.cpp:24-48 | Running again on the result suppresses nothing, in whatever order equal confidences come |
| Decode.DecodeAll | src/PostProcessor.cpp:50-135 | For every buffer list: the result is the greedy selection, in some descending order, of the plain filter over all buffers |
| Decode.DecodeScale | src/PostProcessor.cpp:87-130 | The three loops append exactly the records whose confidence reaches the threshold, each grid record once and in memory order |
| Decode.Visit | src/PostProcessor.cpp:90-129 | The offset computed from y, x and anchor is that of the record, and all reads stay in the buffer |
| Decode.Examine | src/PostProcessor.cpp:95-128 | With the early objectness cut, one record still gives exactly what the plain filter gives |
| Decode.BestClass | src/PostProcessor.cpp:99-108 | The loop finds the first class with the largest score |
| Decode.ConfidenceBelowObjectness | src/PostProcessor.cpp:96-112 | The confidence never exceeds the objectness, so the early cut drops nothing |
| Decode.RecordInside | src/PostProcessor.cpp:67-71 | Every record of the floor-square-root grid lies inside the buffer |
| Decode.RecordOffset | src/PostProcessor.cpp:91-93 | The record of row y, column x and anchor a lies at ((y grid + x) 255 + 85 a), inside the buffer |
| Decode.BoxAtCell | src/PostProcessor.cpp:87-127 | And its box is that of this row, column and anchor |
| Decode.GridIs | src/PostProcessor.cpp:67-71 | A grid of g cells a side fits if and only if 255 g g numbers do |
| Decode.GridLargest | src/PostProcessor.cpp:67-71 | No larger square grid would fit |
| Decode.IndexInvertible | src/PostProcessor.cpp:91-93 | Memory order determines row, column and anchor |
| Decode.IndexOnto | src/PostProcessor.cpp:87-93 | Every record number below three times the grid area is visited |
| Decode.CandidatesAre | src/PostProcessor.cpp:110-128 | A box is a candidate if and only if it is the box of a record that reaches the threshold |
| Decode.AllCandidatesAre | src/PostProcessor.cpp:86-130 | Over all buffers the candidates are those of some buffer |
| Decode.CandidateInRange | src/PostProcessor.cpp:110-127 | Candidates have confidence from the threshold to 1 and a class from 0 to 79 |
| Decode.BoxOf | src/PostProcessor.cpp:114-127 | Centre and extent of the box by the decoding formulas, so its corners are in order |
| Decode.BoxFormula | src/PostProcessor.cpp:114-127 | The formulas in numbers: the centre is 2s - 0.5 plus the cell, over the grid, and the extent is 4 s s times the anchor, over 640, with s the sigmoid of each number |
| Decode.ClassFormula | src/PostProcessor.cpp:99-112 | The class is the first of the 80 with the largest score, and the confidence is that score times the objectness |
| Decode.Anchors | src/PostProcessor.cpp:73-77 | The nine anchors, by the size of the grid |
| Decode.ArgMax | src/PostProcessor.cpp:100-108 | The first largest entry, uniquely |
| Mailbox.EveryRun | src/gui/server/ServerWindow.cpp:85-156 | Over every interleaving, with spurious wake-ups and failing inference: every frame taken had been handed over and every frame published had been taken, both strictly increasing, the newest frame handed over is waiting or was the last taken, both parts of the result are of the last frame published whenever the mutex is free, drawings never use an older or a mixed result, and a sleeping worker is owed a notification if there is something to do |
| Mailbox.PublishedExactly | src/gui/server/ServerWindow.cpp:100-121 | Over every run exactly the frames whose inference succeeded are published, in order; the last of them may still be on its way into the result |
| Mailbox.FailureChangesNothing | src/gui/server/ServerWindow.cpp:119-123 | A failed inference leaves the result, its flag and the drawings as they are, and lowers `busy` next |
| Mailbox.SuccessIsPublished | src/gui/server/ServerWindow.cpp:112-118 | After a success the worker, none of whose statements is blocked while the window is idle, has published its frame with the third statement, and both parts and the flag with the fifth |
| Mailbox.EveryDrawing | src/gui/server/ServerWindow.cpp:147-156 | Over every run each drawing shows the result of the last frame published, and nothing before the first |
| Mailbox.HandedOverExactly | src/gui/server/ServerWindow.cpp:136-144 | Over every run exactly the frames that arrive while the worker is not inferring are handed over, in order |
| Mailbox.EveryFrameDrawn | src/gui/server/ServerWindow.cpp:147-156 | Over every run each frame that has arrived is drawn on exactly once and in order, whether or not it is handed over |
| Mailbox.NextKeepsInv | src/gui/server/ServerWindow.cpp:85-156 | Every statement of either thread keeps the invariant |
| Mailbox.WaitingIsTaken | src/gui/server/ServerWindow.cpp:89-96 | A frame that waits while the window is idle is taken within a bounded number of the worker's statements, none of which can block |
| Mailbox.JoinReturns | src/gui/server/ServerWindow.cpp:68-76 | Once the destructor waits for the worker, every run is finite and can only end with the worker gone and the wait over |
| Mailbox.DeliveredExactly | src/gui/server/ServerWindow.cpp:137-142 | Over every run: every frame handed over is taken or waiting if and only if no store found the slot full |
| Mailbox.DeliveredNext | src/gui/server/ServerWindow.cpp:138-142 | Of all statements exactly the store into a full slot loses a frame |
| Mailbox.DeliveredAlong | src/gui/server/ServerWindow.cpp:85-156 | Along any events from any such state: nothing is lost exactly if nothing was lost before and no store found the slot full |
| Mailbox.FrameMayBeReplaced | src/gui/server/ServerWindow.cpp:98-98 | The `busy` flag is set after the slot is emptied, so a store can find it full: a concrete run |
| Mailbox.ReplacedIsLost | src/gui/server/ServerWindow.cpp:139-142 | A replaced frame is never taken in any continuation |
| Signalling.UrlRecovered | src/gui/client/ClientWindow.cpp:102-104 | Parsing the joined URL recovers host, port and path if and only if the host holds neither slash nor colon, the port is positive and the path begins with a slash |
| Signalling.ParsedSeparable | src/rtsp_native/RtspClient.cpp:117-138 | Whatever the URL, the parsed parts have that shape |
| Signalling.DefaultsRead | src/rtsp_native/RtspClient.cpp:122-136 | Without a port, or with one that does not read as a positive number, the port is 554; without a path it is a slash |
| Signalling.Client.ParseUrl | src/rtsp_native/RtspClient.cpp:117-138 | Accepts exactly URLs with the scheme and a non-empty host, and stores their parts |
| Signalling.CSeqRead | src/rtsp_native/RtspServer.cpp:284-291 | The server finds the client's CSeq line if and only if the URL does not hold that name, and then reads the number printed |
| Signalling.OtherNumbersRead | src/rtsp_native/RtspServer.cpp:286-290 | From any client, a lower-case name is read if the other one is missing |
| Signalling.NoNumberRead | src/rtsp_native/RtspServer.cpp:285-288 | A request with neither name is read with number 1 |
| Signalling.ClashIsRead | src/rtsp_native/RtspServer.cpp:287-290 | If the URL holds that name, the server reads the number behind it there, the same for every request |
| Signalling.NumbersRead | src/rtsp_native/RtspServer.cpp:284-291 | The four numbers read in a run are those printed if and only if the URL does not hold "CSeq:" |
| Signalling.UriRead | src/rtsp_native/RtspServer.cpp:298-301 | The server reads the whole URL if and only if it holds no blank |
| Signalling.TransportRead | src/rtsp_native/RtspServer.cpp:304-313 | The server finds the client's Transport line if and only if the URL does not hold that name, and then reads it as written |
| Signalling.TcpTransportRead | src/rtsp_native/RtspServer.cpp:315-325 | The client's TCP transport is taken as TCP with channel 0 |
| Signalling.UdpTransportRead | src/rtsp_native/RtspServer.cpp:330-337 | The client's UDP transport is taken as UDP with the port it printed |
| Signalling.SessionRead | src/rtsp_native/RtspClient.cpp:356-367 | The client reads the server's session name in full if and only if it holds no semicolon |
| Signalling.SetupExchange | src/rtsp_native/RtspServer.cpp:303-363 | SETUP: the client reads the server's session, and unless the URL holds "Transport:" the transport and the channel or port agree |
| Signalling.ServerSession.HandleRequest | src/rtsp_native/RtspServer.cpp:283-376 | Settings and answer for every request text; the session goes on exactly if the answer can be sent and the request is no TEARDOWN |
| Signalling.SettingsMeaning | src/rtsp_native/RtspServer.cpp:303-366 | After any request text: only a SETUP changes the transport, and the channel modulo 256 or the port modulo 65536; only a PLAY starts the playing, and nothing ends it |
| Signalling.AnswerEchoes | src/rtsp_native/RtspServer.cpp:381-451 | Every answer bears the sequence number that was read from its request |
| Signalling.Client.SendRequest | src/rtsp_native/RtspClient.cpp:235-294 | One request and its answer through the encrypted channel: an answer comes back if and only if neither is longer than 65536 bytes, and it is the server's; a longer request leaves the server as it was |
| Signalling.RequestLines | src/rtsp_native/RtspClient.cpp:300-312 | The lines of OPTIONS, DESCRIBE and PLAY (RFC 2326 section 6) |
| Signalling.SetUpLines | src/rtsp_native/RtspClient.cpp:341-352 | The lines of SETUP, over TCP and over UDP |
| Signalling.AnswerOneByte | src/rtsp_native/RtspServer.cpp:283-376 | The answer to a text of one-byte characters is one, so it can be sent as bytes |
| Signalling.Client.PerformSignaling | src/rtsp_native/RtspClient.cpp:299-387 | The run succeeds if and only if none of the four requests and answers is longer than 65536 bytes. Then the server plays and both know the same session; the four numbers read are those printed if and only if the URL does not hold "CSeq:"; transport and channel or port agree unless it holds "Transport:" |
| Text.FindAcross | src/rtsp_native/RtspServer.cpp:287-310 | Where a search ends in a text put together at a character the pattern does not hold |
| Text.ReadPrint | src/rtsp_native/RtspClient.cpp:132-135 | Reading a printed number gives it back, unless a digit follows |
| Text.AtoiUntil | src/rtsp_native/RtspServer.cpp:290-290 | What follows a character that cannot belong to a number does not change what is read |

## Left out

- Reassembly.TailLoss: loss of packet tails with in-order delivery. Reordering is not detected by the code, and neither is a missing middle or first fragment; Reassembly.GapEmission, Reassembly.GluedUnits and Reassembly.BurstLoss say what is emitted then.
- EndToEnd.Relay: needs that no send or receive has failed; after a failure part-way through a frame the rest of the connection cannot be read, and the model promises only a prefix. It starts after the PLAY response; that this response can come after the first frame, and exactly when, is TcpWriters.PlayAnswerExactly.
- EndToEnd.Connect: the signalling between the key agreement and the first packet is Signalling.Client.PerformSignaling; here its outcome, a session that plays over TCP, is set directly.
- EndToEnd.RelayUdp: the network's choice is given beforehand as positions in the run; datagrams from elsewhere are those of RtspClient.RtspClient.RtpLoopUdp, which takes any.
- EndToEnd.SendRun: the frame rate is positive, which the server window ensures before it creates the server.
- PacketStream.StampPerSecond: stated while the 64-bit product of the frame count and 90000 does not wrap.
- TcpWriters.WholeExactly: a model on values; each body write is any non-empty part, the four header bytes are one write as in the code, and send failures are not modelled there.
- RtspServer.Session.SendRtpPacket: a datagram counts as sent when it is handed to the socket.
- RtspServer.RtspServer.SendNal: the session list and each session's settings do not change during a call; the list's mutex protects the list, and TcpWriters models the session thread changing the settings meanwhile.
- RtspClient.RtspClient.RtpLoopUdp: what the socket brings is a given sequence; time-outs and interrupted calls are its retries.
- Handshake.Agreement: the messages are untampered; nothing is said about an attacker.
- ControlChannel.SendEncrypted: the number of length bytes taken by a failing call is any from one to three, as the operating system decides.
- Signalling.Client.PerformSignaling: no send or receive fails (ControlChannel.SendEncrypted and ControlChannel.RecvEncrypted say what a failure does), and no text has 2^32 bytes or more, where the four length bytes wrap. Numbers too large for the C library's `int` are read as the integers they denote, and one character stands for one byte.
- Signalling.ServerSession.HandleRequest: the peer's address and the choice of the server's UDP port are parameters.
- Nms.Iou: for boxes with ordered corners, which decoding always produces (Decode.BoxOf).
- Nms.Sort: an insertion sort stands in for the library sort; callers use only its contract.
- Decode.DecodeAll: buffers have at most 2^31 - 1 elements, beyond which the code's conversion to `int` is not defined; the square root is exact.
- Mailbox.EveryRun: a model on values, one step for each statement, with sequentially consistent reads of the atomic flag; memory orders are not modelled. Inference is one step that succeeds or throws.
- Mailbox.JoinReturns: inference itself returns.
- Socket set-up, polling, thread creation and joining in the server, and the closing of file descriptors: plumbing around calls into the operating system.
- The GStreamer pipelines except `pushNal`, the encoder, the accelerator's library, the Qt windows and all drawing: foreign calls and user interface.
- Letterboxing and the geometry of drawn boxes: short straight-line arithmetic around library calls.
- RFC 3711: the code's IV and tag inputs are its own construction.
