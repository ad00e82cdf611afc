# Metro device control: a verified model of its protocols and stores

The repository controls metro escalators, doors and ventilation over Modbus. This project models the parts of it
that carry state or a protocol, and proves what they keep:

- **CRC** (`bytes`, `crc_tables`, `crc`, `crc_theory`): the table-driven CRC-16 against the bitwise register of
  section 6.2.2 of the MODBUS over Serial Line guide V1.02, and which errors the acceptance test must catch.
- **The old gateway** (`cmd_pool`, `port_listener`, `gateway_model`, `gateway_theory`, `gateway_image`, `gateway`,
  `gateway_round_trip`, `gateway_runs`, `client_thread`): client threads put requests on a linked FIFO, one receiver
  transmits, repeats, gives up and answers. `GatewayModel` is the machine of steps; the theorems are about all its
  runs; the classes are proved to take these steps.
- **The newer client and server** (`word_bytes`, `stream_socket`, `framing`, `frame_reader`, `emulator_server`,
  `device_thread`, `standard_frames`, `stream_theory`): cutting frames out of a byte stream that arrives in deliveries
  of any size and in which any receive may fail. `corruption` follows a damaged frame through all receivers.
- **The serial port emulator** (`com_port_model`, `com_port_theory`, `com_port_runs`, `com_port`, with `counting` and
  `collections`): two slots between clients and a worker, under every interleaving.
- **Captured answers** (`hex_text`, `capture`, `replay`, `unique_blocks`): from the words of a log to a response file
  and back to the wire.
- **The log** (`log_records`, `log_view`, `log_file`, `log_layout`, `log_container`): the filtered view kept up to
  date by insertion, and the two file formats.
- **The schedulers** (`scheduler`, `scheduler_clock`, `scheduler_day`, `morning_start`): the tick that cleans,
  generates and executes the commands of a day, and the older morning start list.
- **The node list** (`node_list`): doubly linked nodes and an array that must agree with them.

Objects that the source updates in place are classes. Their methods say in `ensures` which step of the machine, or
which function of the old contents, they compute; the lemmas are about those steps and functions. A ghost field
holding the state of the machine (`g`, `m`) is tied to the real fields by `Valid`.

Where the code and its comments or its evident aim differ, the model follows the code and the difference is a theorem:

- `generic_socket::recv` may return more than it was asked for, and it fails after a pause. Server and device thread
  therefore recover a list of frames if and only if deliveries end where the frames end, no receive fails within a frame,
  and fewer than three attempts in a row fail before each (`StreamTheory.ServerRecoversIff`,
  `StreamTheory.DeviceRecoversIff`); two frames in one delivery are both lost (`Framing.PipelinedFramesAreLost`).
- The gateway stores the length of an answer in one byte, so answers of 258 bytes and more come back cut
  (`GatewayTheory.AnswerIsWholeIff`), and it does not compare addresses (`GatewayRoundTrip.RoundTrip`). A packet with a
  bad CRC ends the request without any reply.
- A response can reach the client after next of the serial port emulator, exactly when the port is opened while the
  worker holds a good request (`ComPortTheory.QuietOpenIffOwnAnswer`).
- Inserting into the log agrees with filtering it again exactly when something is hidden or everything new matches
  (`LogView.InsertionAgreesWithFiltering`). The filter looks at devices only when it restricts stations.
- A saved log comes back exactly when the stored types are those of the dictionaries (`LogFiles.LoadAfterSave`).
- A log file cut within its count of records loads as an empty log, without an error (`LogLayout.CutFile`).
- A captured answer is replayed exactly when its byte count is even (`Replay.ReplayedAnswerIff`).
- Commands of 23:59 are never executed (`Scheduler.NeverInTheLastMinute`). With ticks less than a minute apart what is
  executed was made and accepted after the most recent 23:59 (`SchedulerClock.ExecutesAfterTheLastNight`); a program
  held up over 23:59 executes the list of the day before (`SchedulerClock.AGapExecutesYesterday`).
- A tick at midnight leaves a schedule alone that the button made behind the first tick of 23:59
  (`SchedulerDay.MidnightMakesSchedule`). The clocks of the devices are set by the first tick of another hour than the
  last time, even if that is a day ago (`SchedulerDay.ClocksAreSetIff`).
- The CRC shows every damage of up to sixteen bits in a row, but a damaged frame may announce another length. Then the
  gateway and the device thread take its beginning for a frame exactly when that has a CRC of its own
  (`Corruption.ReceiverOnDamage`, `Corruption.ReaderOnDamage`), which one flipped bit can bring about
  (`Corruption.DamageMayBeAccepted`).
- The morning start lists an escalator by its preferred direction but commands the current one
  (`MorningStart.PreferredDirectionIsNotCommanded`).

## Model

| member | source | states |
|---|---|---|
| TableCrc.TableEntry | modbus_srv_old/system.cpp:28-68 | each pair of table entries is the register that eight bit steps with polynomial 0xA001 leave of its index |
| TableCrc.TableStep | modbus_srv_old/system.cpp:113-118 | one trip round the table loop, on exchanged bytes, feeds one byte to the bitwise register |
| TableCrc.CRC | modbus_srv_old/system.cpp:107-121 | the table loop over part of a buffer returns the bitwise CRC-16 with its two bytes exchanged |
| TableCrc.VectorCrc | spider/modbus_srv_emulator/program_settings.cpp:112-127 | the copied loop returns the same for every non-empty input and 0 for an empty one |
| StandardCrc.ShiftIsInjective | modbus_srv_old/system.cpp:49-68 | the shift of a register by a byte is a bijection, which is what makes the low table a permutation |
| CrcTheory.FeedIsLinear | modbus_srv_old/system.cpp:113-118 | two runs differ by what feeding the difference alone would leave |
| CrcTheory.RunIsInjective | modbus_srv_old/system.cpp:113-118 | equal tails of any length keep different registers different, and equal ones equal |
| CrcTheory.TwoBytesToZero | modbus_srv_old/modbus.cpp:454-454 | the register reaches zero over two bytes exactly when they are its own low and high byte |
| CrcTheory.PassesIffZero | modbus_srv_old/modbus.cpp:436-454 | a frame passes the check exactly when the register over the whole frame, check bytes included, ends at zero |
| CrcTheory.WithCrcPasses | modbus_srv_old/modbus_srv.cpp:145-147 | what a sender completes with the CRC, high byte first, passes the check of every receiver |
| CrcTheory.KnownFrame | modbus_srv_old/system.cpp:107-121 | the two bytes 02 07 are completed by 41 12, the published example of the check |
| CrcTheory.PassesWithTail | modbus_srv_old/modbus.cpp:436-454 | bytes behind an accepted frame decide alone whether the longer buffer passes |
| CrcTheory.CoalescedFramesFail | spider/spider/threads_functions.cpp:373-384 | two accepted frames run together are never accepted as one |
| CrcTheory.ZeroPaddingPasses | modbus_srv_old/modbus.cpp:436-454 | zero bytes behind an accepted frame go unnoticed, however many there are |
| CrcTheory.WindowIsInjective | modbus_srv_old/system.cpp:113-118 | three bytes that differ only inside a 16-bit window leave different registers |
| CrcTheory.ShortBurstIsCaught | modbus_srv_old/modbus.cpp:436-465 | no burst of up to 16 bits in a frame of any length turns an accepted frame into another accepted frame |
| CrcTheory.AdjacentBytesAreCaught | modbus_srv_old/modbus.cpp:436-465 | frames of any length that differ only in two adjacent bytes do not both pass |
| CrcTheory.AcceptedFramesAreEven | modbus_srv_old/modbus.cpp:436-454 | every accepted frame has an even number of ones, so an odd number of flipped bits is caught |
| CmdPools.Buffer.Set | modbus_srv_old/lbuffer.cpp:22-38 | takes a fresh private copy; nothing changes for an empty or missing source |
| CmdPools.Buffer.Get | modbus_srv_old/lbuffer.cpp:40-48 | copies everything out, or changes nothing if there is too little room or nothing to copy |
| CmdPools.CmdPool.Link | modbus_srv_old/lbuffer.cpp:82-90 | hanging a filled buffer behind the tail appends its bytes to the sequence, also to an emptied pool |
| CmdPools.CmdPool.Put | modbus_srv_old/lbuffer.cpp:70-93 | appends a private copy of the bytes, refusing an empty source; the list shape is kept |
| CmdPools.CmdPool.Unlink | modbus_srv_old/lbuffer.cpp:106-110 | letting go of the head drops exactly the first command |
| CmdPools.CmdPool.Get | modbus_srv_old/lbuffer.cpp:95-113 | removes and returns the oldest command, or leaves queue and destination alone if there is none or it does not fit |
| GatewayTheory.MessageCarriesRequest | modbus_srv_old/modbus_srv.cpp:143-159 | the message for the queue holds the socket number as far as a byte does, a repeat count of zero, and the request unchanged with a CRC that checks |
| GatewayModel.PacketLength | modbus_srv_old/modbus.cpp:358-385 | the announced length is between 3 and 260, so that no index leaves the receive buffer |
| PortListener.ListenToPort | modbus_srv_old/modbus.cpp:316-433 | the receive loop fills the buffer behind a header that stays zero, within 512 bytes, with what the pure reading of the port events yields |
| GatewayTheory.NextKeepsFaithful | modbus_srv_old/modbus.cpp:205-466 | every step keeps all messages equal to accepted ones up to the repeat count, and all replies true |
| GatewayTheory.FaithfulRun | modbus_srv_old/modbus.cpp:205-466 | in every run all queued, held and transmitted messages are accepted ones, and every reply goes to the socket of its request and is its no-response reply or the TCP form of a packet that checks |
| GatewayTheory.NextKeepsPlaces | modbus_srv_old/modbus.cpp:205-466 | no step loses or doubles a request; only a new one adds a place |
| GatewayTheory.OnePlaceEach | modbus_srv_old/modbus.cpp:205-466 | in every run each accepted request is in exactly one place: queued, in hand, answered, answered as no-response, or dropped |
| GatewayTheory.CountedSendsRun | modbus_srv_old/modbus.cpp:227-231 | in every run the repeat count tells how often a request was transmitted, which is at most three times |
| GatewayTheory.FirstSendsInOrder | modbus_srv_old/modbus.cpp:218-286 | in every run the first transmissions follow the order of acceptance |
| GatewayTheory.NextDrains | modbus_srv_old/modbus.cpp:218-231 | each dequeue uses up one unit of the drain measure, each accepted request adds four, nothing else adds any |
| GatewayTheory.DequeuesArePaidFor | modbus_srv_old/modbus.cpp:218-231 | over any run the dequeues are bounded by the work queued before and accepted during it |
| GatewayTheory.QueueDrains | modbus_srv_old/modbus.cpp:218-231 | without new requests n waiting ones are gone within 4n dequeues for every behaviour of line and devices |
| GatewayTheory.RepeatsAreNeverRefused | modbus_srv_old/modbus.cpp:60-72 | in no run does the address check on the second byte refuse a repeat |
| GatewayTheory.AtMostOneTrueReply | modbus_srv_old/modbus.cpp:205-214 | in every run a request gets at most one reply, to its own socket; a no-response reply names its own address and function, and the packet of an answer was heard while that request was waiting |
| GatewayTheory.AnswerHasOrigin | modbus_srv_old/modbus.cpp:308-459 | in every run the packet of an answer is the one heard in the step that listened for that very request |
| GatewayTheory.NoResponseNamesRequest | modbus_srv_old/modbus.cpp:481-492 | which bytes a no-response reply shows for requests of two bytes and more, of one byte, and empty ones |
| GatewayTheory.SocketNumberSurvives | modbus_srv_old/modbus_srv.cpp:150-151 | the socket number survives the queue exactly when it fits into a byte |
| GatewayTheory.AnswerIsWholeIff | modbus_srv_old/modbus.cpp:454-459 | the header of an answer is five zeros and its length, and the answer is the packet without its CRC exactly when the packet has at most 257 bytes |
| GatewayTheory.LongAnswerIsCut | modbus_srv_old/modbus.cpp:454-459 | a longer answer comes back 256 bytes short |
| GatewayTheory.RebootOnlyAfterSilence | modbus_srv_old/modbus.cpp:207-214 | in every run the reboot comes exactly when more than four requests were given up since a byte was last heard on the port, and the latest replies are the no-response replies to these |
| GatewayTheory.AcceptedHasOrigin | modbus_srv_old/modbus_srv.cpp:145-156 | every message of a run was made by a client thread from a request it read |
| GatewayTheory.TransmissionsAreRequests | modbus_srv_old/modbus.cpp:283-286 | every transmission, first or repeated, is the bytes of the client's request followed by a CRC that checks |
| GatewayRoundTrip.PacketIsHeard | modbus_srv_old/modbus.cpp:316-389 | a packet of the length its own bytes announce is heard whole, neither cut nor extended |
| GatewayRoundTrip.ArrivingIsHeard | modbus_srv_old/modbus.cpp:341-389 | bytes in a row are heard up to the length they announce, or end in a gap |
| GatewayRoundTrip.RoundTrip | modbus_srv_old/modbus.cpp:205-466 | from idle a request goes out with its CRC and the next whole packet comes back as the reply if its CRC checks, whoever sent it; otherwise the request is dropped |
| GatewayRuns.SilentRequest | modbus_srv_old/modbus.cpp:205-334 | on a silent line a request is transmitted exactly three times, the same bytes each time; then its client gets exactly one no-response reply and nothing is queued; the reboot follows the fifth such request |
| GatewayRuns.RequestOnFailingPort | modbus_srv_old/modbus.cpp:335-340 | on a failing port it is transmitted once, then its client gets the no-response reply, and it is not repeated |
| GatewayRuns.BrokenOff | modbus_srv_old/modbus.cpp:325-334 | a packet that breaks off puts the request back with one more repeat, and ends the row of silences |
| GatewayRuns.FailsLater | modbus_srv_old/modbus.cpp:335-340 | a port that fails within a packet ends the request, and the row of silences too |
| GatewayRuns.RequestOnBusyLine | modbus_srv_old/modbus.cpp:244-286 | on a line that does not get free nothing is transmitted, and the client gets the no-response reply |
| GatewayRuns.StandardAnswersAreHeard | modbus_srv_old/modbus.cpp:341-389 | answers with the lengths of the MODBUS Application Protocol for functions 1 to 6, 15 and 16 and error answers are heard whole |
| GatewayRuns.OtherFunctionsAreCut | modbus_srv_old/modbus.cpp:358-385 | of the answer to any other function three bytes are heard |
| GatewayRuns.DoubtfulEnd | modbus_srv_old/modbus.cpp:341-433 | failing selects within a packet do no harm, but one before its last byte drops the request without a reply or a repeat |
| GatewayImage.AnswerInBuffer | modbus_srv_old/modbus.cpp:456-459 | the front of the receive buffer, once the length is in its sixth byte, is the TCP form of the packet |
| GatewayImage.RepeatOutcome | modbus_srv_old/modbus.cpp:325-334 | silence and a gap put the request back at the end of the queue with one more repeat and keep the invariants |
| GatewayProgram.ModbusGateway.constructor | modbus_srv_old/modbus.cpp:25-35 | the fresh program shows the start state of the machine |
| GatewayProgram.ModbusGateway.SendBuffer | modbus_srv_old/modbus.cpp:60-72 | appends the message unless its second byte is above 247 |
| GatewayProgram.ModbusGateway.SendNoResponse | modbus_srv_old/modbus.cpp:481-492 | sends nine bytes with the function's high bit set and code 0x0B |
| GatewayProgram.ModbusGateway.ReportGivenUp | modbus_srv_old/modbus.cpp:207-214 | is the give-up step of the machine, with counter and reboot |
| GatewayProgram.ModbusGateway.TakeNext | modbus_srv_old/modbus.cpp:216-231 | is the take step: an empty queue changes nothing, a request repeated too often is given up at once |
| GatewayProgram.ModbusGateway.Transmit | modbus_srv_old/modbus.cpp:244-286 | is the transmit step: frame on the port and header cleared, or given up when waiting for the line failed |
| GatewayProgram.ModbusGateway.Resend | modbus_srv_old/modbus.cpp:329-332 | appends the message in hand with its count increased |
| GatewayProgram.ModbusGateway.CrcFits | modbus_srv_old/modbus.cpp:436-454 | compares the two bytes behind the packet with its CRC, high byte first |
| GatewayProgram.ModbusGateway.AnswerClient | modbus_srv_old/modbus.cpp:456-459 | the client gets the TCP form of the packet under its own socket number |
| GatewayProgram.ModbusGateway.RepeatRequest | modbus_srv_old/modbus.cpp:325-334 | is the outcome of silence or of a gap |
| GatewayProgram.ModbusGateway.AbandonRequest | modbus_srv_old/modbus.cpp:335-340 | is the outcome of a failure of the port |
| GatewayProgram.ModbusGateway.Forget | modbus_srv_old/modbus.cpp:432-433 | is the outcome of a packet whose last select failed: dropped without a reply or a repeat |
| GatewayProgram.ModbusGateway.FinishRequest | modbus_srv_old/modbus.cpp:435-465 | is the outcome of a packet: passed on if its CRC checks, dropped otherwise |
| GatewayProgram.ModbusGateway.Listen | modbus_srv_old/modbus.cpp:308-465 | is the listen step for every sequence of port events |
| GatewayProgram.ModbusGateway.ReceiverPass | modbus_srv_old/modbus.cpp:205-466 | one trip round the loop is the four receiver steps in order |
| GatewayProgram.ModbusGateway.Receiver | modbus_srv_old/modbus.cpp:205-466 | any number of trips is the run of their steps |
| GatewayProgram.ModbusGateway.HandOver | modbus_srv_old/modbus_srv.cpp:143-156 | is the accept step for the bytes read |
| ClientThread.TakeIsPrefix | modbus_srv_old/system.cpp:229-253 | for every sequence of recv outcomes Receive succeeds exactly when enough bytes arrive, and takes exactly the first ones |
| ClientThread.PayloadsAreFrames | modbus_srv_old/modbus_srv.cpp:113-163 | interrupted calls make no difference to the requests that are parsed |
| ClientThread.SentComesBack | modbus_srv_old/modbus_srv.cpp:113-134 | any list of requests of up to 255 bytes, each behind five zeros and its length, is parsed back, whatever unfinished bytes follow |
| ClientThread.Receive | modbus_srv_old/system.cpp:229-253 | the byte loop fills the buffer with what the pure reading takes, and nothing outside it |
| ClientThread.Process | modbus_srv_old/modbus_srv.cpp:98-166 | the thread is the accept steps of the requests parsed from its connection, and none for socket 0 |
| WordBytes.BytesOfWord | spider/modbus_srv_emulator/program_settings.h:83-101 | splits a word into two bytes in either order |
| WordBytes.WordFromBytes | spider/modbus_srv_emulator/program_settings.h:103-115 | merges up to two bytes in either order |
| WordBytes.SplitThenMerge | spider/modbus_srv_emulator/program_settings.h:83-115 | splitting and merging gives the word back in either order |
| WordBytes.UpperByteFirst | spider/modbus_srv_emulator/program_settings.h:83-115 | big-endian puts the upper byte first, little-endian the lower, splitting and merging; a byte alone is the lower one |
| StreamSocket.GenericSocket.Send | spider/classes/socket_class/socket_classes/generic_socket.cpp:71-98 | refuses an empty buffer, otherwise sends it whole or fails |
| StreamSocket.GenericSocket.Recv | spider/classes/socket_class/socket_classes/generic_socket.cpp:100-158 | reads on until the asked count is there and keeps whatever came with it |
| StreamSocket.RecvKeeps | spider/classes/socket_class/socket_classes/generic_socket.cpp:119-153 | no byte of the stream is skipped or reordered, whatever receives fail; without failures fewer bytes than asked come only at its end |
| StreamSocket.OneDelivery | spider/classes/socket_class/socket_classes/generic_socket.cpp:112-136 | a delivery that is long enough is taken whole up to 300 bytes, or to 100 more than a request for over 300 bytes asks for |
| StreamSocket.GatherStops | spider/classes/socket_class/socket_classes/generic_socket.cpp:119-153 | a receive gets what it asks for exactly when nothing fails before that, and stops at a delivery unless its buffer is full |
| StreamSocket.GatherStopsAtCut | spider/classes/socket_class/socket_classes/generic_socket.cpp:119-153 | a delivery boundary at or beyond the asked count is never crossed |
| Framing.CollectKeeps | spider/modbus_srv_emulator/main.cpp:158-251 | the bytes taken for a frame and the bytes left make up the stream, whatever receives fail |
| Framing.CollectFrame | spider/modbus_srv_emulator/main.cpp:158-251 | a stream that starts with a well-formed frame is read to the end exactly when no receive fails within the frame; the frame then comes first, and nothing behind it exactly when a delivery ends there |
| Framing.ReadFrame | spider/modbus_srv_emulator/main.cpp:158-265 | what comes of a stream that starts with an accepted frame, whatever is glued to the frame and whatever receives fail |
| Framing.ReadRecoversIff | spider/modbus_srv_emulator/main.cpp:158-265 | reading recovers exactly the frame if and only if a delivery ends where it ends and no receive fails before that |
| StandardFrames.WellFormedRequestsAreStandard | spider/modbus_srv_emulator/main.cpp:165-251 | the framing law is about exactly the 8-byte requests of functions 4, 5 and 6 and the requests of function 16 that are as long as their byte count says |
| StandardFrames.StandardAnswersAreWellFormed | spider/spider/threads_functions.cpp:286-359 | and about all answers of functions 3 to 6 and 16 with their lengths in the MODBUS Application Protocol, and error answers |
| StandardFrames.StandardRequestIsRead | spider/modbus_srv_emulator/main.cpp:158-265 | such a request in a delivery of its own is read as itself exactly when its CRC checks |
| StandardFrames.StandardAnswerIsRead | spider/spider/threads_functions.cpp:286-411 | the same for such an answer |
| StandardFrames.OtherRequestIsRefused | spider/modbus_srv_emulator/main.cpp:165-190 | a request of any other function is refused after two bytes, and the rest of its delivery is thrown away |
| StandardFrames.PortEmulatorAccepts | spider/com_port_emulator/main.cpp:714-768 | the worker of the serial port emulator accepts such requests exactly when their CRC checks, and no other function |
| Framing.PipelinedFramesAreLost | spider/classes/socket_class/socket_classes/generic_socket.cpp:112-136 | two frames in one delivery are both thrown away |
| FrameReader.Fetch | spider/spider/threads_functions.cpp:323-347 | one further receive keeps the reading of the frame on the course of the pure function |
| FrameReader.CrcMatches | spider/modbus_srv_emulator/main.cpp:254-265 | is the acceptance test on the last two bytes |
| FrameReader.AppendCrc | spider/modbus_srv_emulator/main.cpp:294-297 | completes the data with its CRC |
| EmulatorServer.ReadRequest | spider/modbus_srv_emulator/main.cpp:156-265 | the staged reading of a request is the pure reading of the stream |
| EmulatorServer.ServeOne | spider/modbus_srv_emulator/main.cpp:154-320 | one pass reads, answers from the file or with an error answer, and counts failures |
| EmulatorServer.SocketThread | spider/modbus_srv_emulator/main.cpp:140-327 | the thread answers exactly the requests the pure function accepts, until three failures in a row |
| StandardFrames.RequestIsAnswered | spider/modbus_srv_emulator/main.cpp:266-320 | a good request is answered by its response file with a CRC, or by error code 4 without a file, and resets the failures |
| StandardFrames.UnknownFunctionIsRefused | spider/modbus_srv_emulator/main.cpp:165-190 | an unknown function is answered by error code 1 and counts as a failure, as two if the answer cannot be sent |
| StandardFrames.BadRequestIsIgnored | spider/modbus_srv_emulator/main.cpp:252-265 | a request whose CRC does not check gets no answer and counts as a failure |
| StandardFrames.FailedReceiveCounts | spider/modbus_srv_emulator/main.cpp:154-165 | a failing receive between requests counts as a failure |
| StandardFrames.ThreeFailuresStop | spider/modbus_srv_emulator/main.cpp:140-156 | at three failures the thread stops, whatever still comes |
| EmulatorServer.ServeOnlyAccepted | spider/modbus_srv_emulator/main.cpp:154-265 | whatever arrives and whichever receives and sends fail, accepted requests pass the CRC, have a known function and at least their length, and are disjoint pieces of the stream in order |
| EmulatorServer.RequestsAligned | spider/modbus_srv_emulator/main.cpp:154-320 | requests delivered frame by frame are all accepted, in order, whatever becomes of the answers |
| EmulatorServer.ServeAligned | spider/modbus_srv_emulator/main.cpp:154-320 | as long as every request has an answer and sends work, each of them gets its own answer, in order |
| StreamTheory.RequestsFit | spider/modbus_srv_emulator/main.cpp:154-265 | the accepted requests together are never longer than the stream |
| StreamTheory.ReadFailure | spider/classes/socket_class/socket_classes/generic_socket.cpp:138-141 | a receive that fails at once costs one attempt and nothing of the stream |
| StreamTheory.ServerRecoversIff | spider/modbus_srv_emulator/main.cpp:154-320 | for every concatenation of well-formed requests of functions 4, 5, 6 and 16, however it arrives and whatever fails, the server recovers exactly that list if and only if each request comes unbroken, a delivery ends with it, and fewer than three attempts in a row, failed sends included, fail before it |
| StreamTheory.WellDeliveredIffAligned | spider/modbus_srv_emulator/main.cpp:154-320 | without failing receives this comes to: no delivery runs across the end of a request, whatever becomes of the answers |
| StreamTheory.DeviceRecoversIff | spider/spider/threads_functions.cpp:271-424 | for every concatenation of well-formed answers, however it arrives and whatever fails, the device thread publishes exactly that list under the same condition, passes without a send counting as failures |
| StreamTheory.ByteByByteIsAligned | spider/modbus_srv_emulator/main.cpp:154-265 | bytes that come in one at a time never run across the end of a frame |
| StreamTheory.ExactLengthIff | spider/spider/threads_functions.cpp:286-359 | for every stream, a frame that was read has exactly the length it announces if and only if a delivery ends there |
| StreamTheory.PublishesExactlyIff | spider/spider/threads_functions.cpp:271-424 | for every stream of socket outcomes, all published answers have exactly the length they announce if and only if in each pass that reads one a delivery ends there |
| StreamTheory.ModestRunIsExact | spider/spider/threads_functions.cpp:271-424 | if no receive of the connection gets more than it asks for, every published answer has exactly the length it announces |
| DeviceThread.ReadAnswer | spider/spider/threads_functions.cpp:286-411 | the staged reading of an answer is the pure reading of the stream |
| DeviceThread.PollOnce | spider/spider/threads_functions.cpp:271-424 | one pass sends the whole request, one buffer if it is not empty and the send works, then reads and publishes, or counts a failure |
| DeviceThread.PollAll | spider/spider/threads_functions.cpp:271-424 | the inner loop publishes the answers of the pure function and sends one whole request for each pass whose send works, in order |
| DeviceThread.Connection | spider/spider/threads_functions.cpp:250-445 | a connection publishes what the pure function publishes, then an empty buffer before the next connection; a failed start publishes two; the buffers sent are, in order, the requests of the passes whose send works |
| DeviceThread.PublishesOnlyAccepted | spider/spider/threads_functions.cpp:286-418 | for every stream of socket outcomes each published buffer passes the CRC, has at least the length its header implies, and is a piece of the stream of its own |
| DeviceThread.AnswersFollowRequests | spider/spider/threads_functions.cpp:271-424 | in every run each published answer comes from a pass that had a request and sent it |
| DeviceThread.EndsAtThirdFailure | spider/spider/threads_functions.cpp:271-284 | for every stream of socket outcomes the inner loop ends at the first three failures in a row and not before |
| DeviceThread.PublishesAligned | spider/spider/threads_functions.cpp:286-418 | answers delivered frame by frame are published one by one, unchanged |
| DeviceThread.PublishesABeginning | spider/spider/threads_functions.cpp:286-418 | whatever becomes of the sends, answers delivered frame by frame are published unchanged and in order from the first on |
| Corruption.PortEmulatorRejects | spider/com_port_emulator/main.cpp:714-768 | the worker of the serial port emulator rejects every request damaged by a burst of up to 16 bits, in two adjacent bytes, or in an odd number of bits |
| Corruption.ReaderRejects | spider/modbus_srv_emulator/main.cpp:158-265 | however a damaged frame arrives and whatever fails it is not read as a frame; only a shorter beginning with a CRC of its own can be |
| Corruption.ReaderRejectsSameLength | spider/spider/threads_functions.cpp:286-411 | a damaged frame that still announces its length is never read as a frame, whatever receives fail |
| Corruption.ReaderOnDamage | spider/spider/threads_functions.cpp:286-411 | when a delivery ends there, the beginning of a damaged frame up to its announced length is read as a frame exactly when it is shorter, its own CRC checks and no receive fails within it |
| Corruption.DeliveryRejects | spider/modbus_srv_emulator/main.cpp:158-265 | a damaged frame in one delivery is never read as a frame, even with a damaged length, and nothing of it is left over |
| Corruption.NothingIsPublished | spider/spider/threads_functions.cpp:286-418 | of a damaged frame in one delivery the device thread publishes nothing |
| Corruption.NothingIsServed | spider/modbus_srv_emulator/main.cpp:154-265 | of a damaged frame in one delivery the server serves nothing |
| Corruption.ReceiverOnDamage | modbus_srv_old/modbus.cpp:341-465 | a damaged answer makes the gateway drop the request, repeat it, or pass on a shorter beginning, exactly as the damaged length and the CRC of that beginning say; with the length unchanged it is dropped |
| Corruption.DamageMayBeAccepted | modbus_srv_old/modbus.cpp:351-352 | for every device address there is an accepted answer in which one flipped bit makes gateway and device thread accept an error answer |
| ComPortTheory.NextKeepsOrder | spider/com_port_emulator/main.cpp:299-605 | no step disturbs the order: answers handed out, response slot, worker, request slot |
| ComPortTheory.OrderInEveryRun | spider/com_port_emulator/main.cpp:299-830 | in every interleaving the numbers of the requests along that line increase strictly |
| ComPortTheory.TruthInEveryRun | spider/com_port_emulator/main.cpp:684-809 | in every interleaving slots hold what was written, and responses are answers to accepted requests |
| ComPortRuns.ResponsesCarryFiles | spider/com_port_emulator/main.cpp:770-809 | in every interleaving what is handed out for a request with a response file is the file and a CRC that checks, cut to the asked length, and otherwise the error answer |
| ComPortRuns.LastWriteIsAnswered | spider/com_port_emulator/main.cpp:346-465 | a good request written while the worker is free is what the next read of its client answers, whatever was pending before |
| ComPortRuns.FlushForgets | spider/com_port_emulator/main.cpp:538-552 | behind a flush nothing is handed out that was written before, but for the request the worker holds |
| ComPortRuns.OpenForgets | spider/com_port_emulator/main.cpp:299-345 | the same behind each open that succeeds |
| ComPortRuns.OpensIff | spider/com_port_emulator/main.cpp:299-345 | an open succeeds exactly on a closed port, with memory and the consent of the default handler |
| ComPortRuns.ClosedPortIsSilent | spider/com_port_emulator/main.cpp:581-605 | a close drops the request and keeps the response; a closed port takes no writes and answers no reads |
| ComPortTheory.ReadsAnswerWrites | spider/com_port_emulator/main.cpp:346-405 | the responses handed out are, in order, answers to a subsequence of the requests written, cut to the asked length; none is answered or read twice |
| ComPortTheory.OnePlaceEach | spider/com_port_emulator/main.cpp:299-830 | in every interleaving each request written is in exactly one place: handed out, response slot, worker, request slot, lost, or rejected |
| ComPortTheory.FailuresAreAStreak | spider/com_port_emulator/main.cpp:683-823 | the failure count is the number of rejections at the end of the history and never exceeds three |
| ComPortTheory.NothingAfterTheStop | spider/com_port_emulator/main.cpp:683-683 | a stopped worker answers nobody: at most the response already there is handed out |
| ComPortTheory.QuietOpensKeepSessionsApart | spider/com_port_emulator/main.cpp:328-337 | if the worker never has an answer on its way when the port is opened, every client reads answers to its own requests only |
| ComPortTheory.QuietOpenIffOwnAnswer | spider/com_port_emulator/main.cpp:328-337 | opening a closed port is safe in this sense exactly when the worker has no answer on its way |
| ComPortProgram.ComPort.IoOpen | spider/com_port_emulator/main.cpp:299-343 | is the open step with its four outcomes |
| ComPortProgram.ComPort.IoRead | spider/com_port_emulator/main.cpp:346-405 | is the read step: the response cut to the asked length, or waiting, or refused; statistics count what was handed out |
| ComPortProgram.ComPort.IoWrite | spider/com_port_emulator/main.cpp:408-465 | is the write step; an unread request is replaced |
| ComPortProgram.ComPort.IoFlush | spider/com_port_emulator/main.cpp:538-552 | is the two flush steps one after the other |
| ComPortProgram.ComPort.IoRelease | spider/com_port_emulator/main.cpp:554-569 | is the close step for the client that has the port open |
| ComPortProgram.ComPort.IoClose | spider/com_port_emulator/main.cpp:581-605 | is the close step; other clients' closes change nothing |
| ComPortProgram.ComPort.LetGo | spider/com_port_emulator/main.cpp:581-605 | closing leaves the response slot as it is |
| ComPortProgram.ComPort.TakeRequest | spider/com_port_emulator/main.cpp:687-712 | is the take step |
| ComPortProgram.ComPort.Check | spider/com_port_emulator/main.cpp:714-768 | accepts exactly the requests of a known function with at least their length and a CRC over all of them, whatever byte stands behind a short one |
| ComPortProgram.ComPort.HandleRequest | spider/com_port_emulator/main.cpp:714-821 | is the finish step: the answer is stored, or a failure counted |
| HexText.HexRoundTrip | spider/docs/extract_blocks_to_files.py:169-171 | the printed hexadecimal digits of a number have that number as their value |
| HexText.DigitValues | spider/modbus_srv_emulator/main.cpp:91-111 | digits of either case count alike |
| HexText.ReadResponse | spider/modbus_srv_emulator/main.cpp:52-121 | the loop over the lines of a response file collects the bytes of the lines that hold one |
| HexText.ParseToken | spider/modbus_srv_emulator/main.cpp:91-111 | a word with a prefix is read as its value, or dropped above 0xFF |
| HexText.ParseComment | spider/modbus_srv_emulator/main.cpp:86-89 | a line that starts with a number sign gives nothing |
| HexText.TrimIsExact | spider/modbus_srv_emulator/main.cpp:73-79 | spaces, tabs and line ends around the text of a line are taken off, and nothing else |
| HexText.NumberLine | spider/modbus_srv_emulator/main.cpp:72-112 | a number with prefix 0x, 0X or none, in digits of either case, gives its byte, or nothing above 255 |
| HexText.MinusLine | spider/modbus_srv_emulator/main.cpp:91-111 | a minus sign turns the number round in 32 bits, so only 0 and the last 255 numbers give a byte |
| HexText.PlusLine | spider/modbus_srv_emulator/main.cpp:91-111 | a plus sign makes no difference |
| HexText.NumberWithTail | spider/modbus_srv_emulator/main.cpp:91-111 | what follows the digits of a number is ignored, unless it makes its single zero a prefix |
| HexText.PrefixAlone | spider/modbus_srv_emulator/main.cpp:91-111 | a prefix without digits gives nothing |
| HexText.NothingLine | spider/modbus_srv_emulator/main.cpp:73-89 | blank lines and comments give nothing, whatever the white space in front |
| HexText.LinesComeBack | spider/docs/extract_blocks_to_files.py:163-177 | lines written one by one are read back one by one |
| Capture.ConvertBlock | spider/docs/extract_blocks_to_files.py:107-145 | the loop over the data words makes the registers, two words each from 3001 on |
| Capture.WriteRegisterFile | spider/docs/extract_blocks_to_files.py:148-177 | the lines written are the header and three lines for each register |
| Capture.HeadingLayout | spider/docs/extract_blocks_to_files.py:119-170 | two comments, then the device that was given or else the first word of the log, the function and the byte count |
| Capture.RegisterFileLayout | spider/docs/extract_blocks_to_files.py:125-177 | five lines of heading, then for each covered register a comment with its number from 3001 on and its two words as the log has them |
| Capture.RegistersComeBack | spider/docs/extract_blocks_to_files.py:173-177 | the register lines are read back as the words in their order |
| Capture.ReplayedIsEvenPart | spider/docs/extract_blocks_to_files.py:107-177 | for words of any spelling and value the file is read back as the header and the data up to the last whole register |
| Replay.ReplayedAnswerIff | spider/docs/extract_blocks_to_files.py:131-145 | a captured answer with a good CRC is what its response file with the CRC put back gives, exactly when its byte count is even |
| Replay.CaptureIsReplayed | spider/modbus_srv_emulator/main.cpp:154-320 | a captured answer of function 3 or 4 with whole registers: the server frames the request from its stream and sends the captured bytes, and the device thread frames and publishes them, however both are delivered |
| Replay.PortReplaysCapture | spider/com_port_emulator/main.cpp:770-821 | the same file makes the serial port emulator hand out exactly the captured bytes, in every interleaving |
| UniqueBlocks.ExtractUnique | spider/docs/extract_unique_hex_blocks.py:42-81 | the line machine with its dictionary keeps the first appearance of every block |
| UniqueBlocks.BlocksLieBehindMarkers | spider/docs/extract_unique_hex_blocks.py:42-81 | the blocks of any log are the data lines behind each marker, up to the first ending line, the next marker or the end of the log, with the line that ends them |
| UniqueBlocks.EveryLogIsALog | spider/docs/extract_unique_hex_blocks.py:42-56 | every log divides into lines before any marker and sections behind the markers |
| UniqueBlocks.FirstsAreDistinct | spider/docs/extract_unique_hex_blocks.py:51-53 | no block is kept twice, and a block is kept exactly when the log has it |
| UniqueBlocks.FirstsInOrder | spider/docs/extract_unique_hex_blocks.py:51-53 | the kept blocks are the first appearances in log order |
| UniqueBlocks.PrintUnique | spider/docs/extract_unique_hex_blocks.py:90-99 | writes a heading and numbered blocks |
| UniqueBlocks.PrintedIsABook | spider/docs/extract_unique_hex_blocks.py:90-99 | the print is a heading and, numbered from 1, each block behind a marker and before an ending line |
| UniqueBlocks.ExtractBlocks | spider/docs/extract_blocks_to_files.py:64-104 | the second script collects the words behind each marker under the number of the title |
| UniqueBlocks.BookIsRead | spider/docs/extract_blocks_to_files.py:64-104 | of any file the second script gives, title by title, the words of the lines that have a marker before them, if they are three or more |
| UniqueBlocks.EveryFileIsABook | spider/docs/extract_blocks_to_files.py:77-82 | every file divides into lines before any title and the titles with their lines |
| UniqueBlocks.PrintedIsRead | spider/docs/extract_blocks_to_files.py:64-104 | the second script reads the words of every block of three words and more out of what the first one printed |
| UniqueBlocks.LogThroughBothScripts | spider/docs/extract_unique_hex_blocks.py:42-99 | both scripts together give the words of each different block of a log once, in the order of first appearance |
| LogRecords.StableSortIsTheOnlyOne | spider27_old/src/contain_log_rec.h:287-309 | a list is the stable sort of another exactly when it is in order of time and keeps the order within every moment |
| LogRecords.SelectCommutesWithSort | spider27_old/src/contain_log_rec.h:836-847 | sorting then filtering is filtering then sorting |
| LogRecords.FailsIff | spider27_old/src/contain_log_rec.h:243-264 | a record fails the filter exactly when it is on and its type, its time, its station or, with stations restricted, its device is excluded |
| LogRecords.PartsMakeWhole | spider27_old/src/contain_log_rec.h:841-844 | the two parts of the partition contain every record once |
| LogView.UpperBoundSplits | spider27_old/src/contain_log_rec.h:395-398 | the halving search finds the first later record of the sorted visible part |
| LogView.VisibleInsert | spider27_old/src/contain_log_rec.h:391-404 | a matching record goes behind all visible records that are not later, and moves the hidden ones by one place |
| LogView.InsertHidden | spider27_old/src/contain_log_rec.h:400-402 | a record that does not match stays hidden while something else is |
| LogView.SpoiltIsNotUpToDate | spider27_old/src/contain_log_rec.h:400-402 | once a record that does not match is visible the view is not the filtered one |
| LogView.RunFromFiltering | spider27_old/src/contain_log_rec.h:391-404 | what the list is after any run of insertions behind a filtering |
| LogView.InsertionAgreesWithFiltering | spider27_old/src/contain_log_rec.h:391-404 | after any run of insertions behind a filtering the visible list is that of filtering from scratch exactly when something was hidden or all new records match |
| LogView.FilteringAgainChangesNothing | spider27_old/src/contain_log_rec.h:836-847 | filtering a list that is up to date changes nothing visible |
| LogView.FilterOffShowsAll | spider27_old/src/contain_log_rec.h:836-847 | with the filter off everything is shown, in order of time and, within a moment, in the order of the list before |
| LogView.FilterOffAfterInsertions | spider27_old/src/contain_log_rec.h:836-847 | the same after any run of insertions under any filter |
| LogView.FilterOnShowsMatching | spider27_old/src/contain_log_rec.h:836-847 | with the filter on exactly the matching records are shown, in that order |
| LogView.InsertionWithoutFilter | spider27_old/src/contain_log_rec.h:391-404 | with the filter off new records are shown behind all others in the order in which they come |
| LogView.RecordsAreKept | spider27_old/src/contain_log_rec.h:391-404 | insertions add exactly their records, and filtering keeps the multiset |
| LogContainers.SameFilter | spider27_old/src/contain_log_rec.h:193-241 | the comparison by sizes and one-sided inclusion is equality of the filters |
| LogContainers.LogContainer.constructor | spider27_old/src/contain_log_rec.h:320-334 | a new container is empty and filters nothing |
| LogContainers.LogContainer.SortAll | spider27_old/src/contain_log_rec.h:304-309 | everything is sorted and visible |
| LogContainers.LogContainer.SetFiltering | spider27_old/src/contain_log_rec.h:836-847 | the list is sorted and, with the filter on, partitioned |
| LogContainers.LogContainer.Insert | spider27_old/src/contain_log_rec.h:391-404 | the list is that of one insertion, with the boundary on its record or at the end |
| LogContainers.LogContainer.EraseAll | spider27_old/src/contain_log_rec.h:412-417 | nothing is left, visible or hidden |
| LogContainers.LogContainer.Save | spider27_old/src/contain_log_rec.h:718-834 | the loop writes signature, count and all records, hidden ones too, in list order |
| LogContainers.LogContainer.LoadRecords | spider27_old/src/contain_log_rec.h:541-694 | the loop appends the records up to the first that is cut off or unknown and keeps the counter at the last id |
| LogContainers.LogContainer.Load | spider27_old/src/contain_log_rec.h:472-714 | the filter is turned off and the log replaced by that of the file; a missing file is created empty in the old format |
| LogFiles.DwordRoundTrip | spider27_old/src/contain_log_rec.h:748-748 | four bytes, lowest first, give the count back |
| LogFiles.LongRoundTrip | spider27_old/src/contain_log_rec.h:759-762 | four bytes give every signed 32-bit number back |
| LogFiles.SavedIsReadBack | spider27_old/src/contain_log_rec.h:541-694 | loading a saved log gives its records in order, typed by the dictionaries, up to the first unknown message |
| LogFiles.LoadAfterSave | spider27_old/src/contain_log_rec.h:472-834 | a saved log comes back whole with the last id on the counter exactly when every type is the one the dictionaries give |
| LogFiles.LoadSaveLoad | spider27_old/src/contain_log_rec.h:472-834 | whatever file was loaded, saving and loading again gives the same log |
| LogFiles.NumbersAreConsecutive | spider27_old/src/contain_log_rec.h:575-577 | records of the old format are numbered on from the counter without a gap |
| LogFiles.LegacyLoadsLikeNew | spider27_old/src/contain_log_rec.h:541-694 | an old file loads as the same records so numbered would from the new format |
| LogLayout.SavedLayout | spider27_old/src/contain_log_rec.h:718-834 | where each field of each record stands in a saved file, in four bytes with the lowest first, and what the file begins with |
| LogLayout.LegacyLayout | spider27_old/src/contain_log_rec.h:541-600 | the same for a file of the old format |
| LogLayout.LoadedTypesAreNamed | spider27_old/src/contain_log_rec.h:631-676 | in any load the type comes from the dictionary of the device type, by the low 15 bits of the id, or, if that does not give one, from the general one by the whole id |
| LogLayout.UnknownStopsTheLoad | spider27_old/src/contain_log_rec.h:656-672 | a record that neither names ends the load with the records before it |
| LogLayout.UnsignedFails | spider27_old/src/contain_log_rec.h:512-545 | a file without either signature loads nothing and fails |
| LogLayout.CutFile | spider27_old/src/contain_log_rec.h:541-694 | of a file cut anywhere the whole records are loaded, and the load fails unless nothing is missing or the cut is in the count |
| Scheduler.FlagsAfter | spider/spider/threads_functions.cpp:128-181 | how each event changes the flags, and when it executes |
| Scheduler.CreatedIff | spider/spider/threads_functions.cpp:144-173 | there is a schedule exactly when one was made and no day has ended since |
| Scheduler.AcceptedIff | spider/spider/timer_commands_callbacks.cpp:71-117 | both flags are set exactly when the current schedule was accepted after it was made |
| Scheduler.ExecutesIff | spider/spider/threads_functions.cpp:128-181 | in every run of ticks and buttons commands are executed exactly by the first tick of a minute, not the last of the day, while the latest schedule is accepted and the program has seen no 23:59 since it was made |
| Scheduler.NeverInTheLastMinute | spider/spider/threads_functions.cpp:149-156 | in no run is anything executed at 23:59 |
| Scheduler.ListStays | spider/spider/threads_functions.cpp:160-181 | the list is the one its current schedule was made with |
| Scheduler.ExecutesWhatWasAccepted | spider/spider/timer_commands_callbacks.cpp:71-117 | in every run what is sent are the due commands of the very list that was made at one event and accepted at a later one, with no other made and no 23:59 seen by the program since |
| SchedulerClock.ExecutesAfterTheLastNight | spider/spider/threads_functions.cpp:105-181 | in every run of ticks less than a minute apart, what is executed was made and then accepted with nothing made since, both behind the first tick of the most recent 23:59 |
| SchedulerClock.MadeAfterLastMinute | spider/spider/threads_functions.cpp:147-156 | in such a run a current schedule was made after the first tick of every 23:59 ticked since |
| SchedulerClock.AGapExecutesYesterday | spider/spider/threads_functions.cpp:128-156 | without steady ticks this fails: a program held up from 22:59 to 10:00 executes the list of the day before |
| SchedulerClock.MinuteIsSeen | spider/spider/threads_functions.cpp:128-129 | between a tick before a minute and one in or behind it some tick is processed as the first of that minute |
| SchedulerClock.SentExactlyOnce | spider/spider/threads_functions.cpp:176-181 | in a run of steady ticks each minute behind the acceptance, except 23:59, is executed by exactly one tick while the schedule is current, and no other executes at that time of day |
| SchedulerClock.CommandIsSentOnce | spider/classes/metro_devices/containers_classes/metro_devices_container.cpp:146-158 | so each command of the schedule whose time comes behind the acceptance is sent by one tick, as often as it stands in the list, and by no other |
| SchedulerClock.DueCounts | spider/classes/metro_devices/containers_classes/metro_devices_container.cpp:146-158 | the due commands of a list are those of this hour and minute, as often as they stand in it |
| Scheduler.MinutesAreConsecutive | spider/spider/threads_functions.cpp:105-129 | ticks less than a minute apart see every minute exactly once in order, from the first change on |
| SchedulerDay.MidnightMakesSchedule | spider/spider/threads_functions.cpp:147-173 | with steady ticks the first tick of 0:00 makes the new schedule exactly when its preparation succeeds and the button has not made one since the first tick of 23:59; no older schedule is left |
| SchedulerDay.NightClearsBoth | spider/spider/threads_functions.cpp:147-156 | the first tick of 23:59 takes back both flags of a schedule; without one it changes nothing |
| SchedulerDay.ClocksAreSetIff | spider/spider/threads_functions.cpp:116-120 | a tick sets the clocks exactly when sending is enabled and the hour is not that of the last setting |
| Scheduler.PulseCatcher.TimerPulse | spider/spider/threads_functions.cpp:102-183 | is the tick: clocks once an hour, then once a minute clean, renew and execute |
| Scheduler.PulseCatcher.ExecuteTimerCommands | spider/classes/metro_devices/containers_classes/metro_devices_container.cpp:1841-1855 | the loop over the list sends the commands of this hour and minute in list order |
| Scheduler.PulseCatcher.Accept | spider/spider/timer_commands_callbacks.cpp:71-86 | is the accept button |
| Scheduler.PulseCatcher.Press | spider/spider/timer_commands_callbacks.cpp:88-118 | is the generate button |
| MorningStart.EveryMinuteOnce | spider27_old/src/contain_metro_escalators.h:134-154 | executing every minute of a day once sends one command for each visible entry with a time in the day, a known escalator and a direction, and no other |
| MorningStart.OrderDoesNotMatter | spider27_old/src/contain_morning_start.h:195-200 | the commands do not depend on the order the sort leaves |
| MorningStart.DayOfTheEnabled | spider27_old/src/contain_morning_start.h:202-214 | whatever the sort does, a day sends exactly the commands of the enabled entries that were made |
| MorningStart.MorningDay | spider27_old/src/contain_metro_escalators.h:815-847 | preparing the list, showing the starting entries and executing it once in every minute sends exactly the commands of the enabled entries of the given escalators |
| MorningStart.CommandsAtIff | spider27_old/src/contain_metro_escalators.h:134-154 | whatever the list, a minute sends exactly the commands its shown entries ask for, to escalators that are known |
| MorningStart.EntryOfEscalator | spider27_old/src/contain_metro_escalators.h:80-110 | an entry carries the settings of its escalator and is shown exactly if the mode allows the day and one of its directions is up or down |
| MorningStart.MinuteCommands | spider27_old/src/contain_metro_escalators.h:64-154 | each minute sends code 0xE0 or 0xE1 to an escalator, as often as it is listed, exactly if it is enabled, set to move up or down, to start in this minute, and its mode allows the day |
| MorningStart.DayCommands | spider27_old/src/contain_metro_escalators.h:64-154 | the same for the whole day |
| MorningStart.EntrySendsIff | spider27_old/src/contain_metro_escalators.h:134-154 | an entry sends its one command in a day exactly when its time is in the day and the escalator has a direction |
| MorningStart.PreferredDirectionIsNotCommanded | spider27_old/src/contain_metro_escalators.h:90-98 | an entry enabled by its preferred direction alone sends nothing |
| MorningStart.MorningStartList.Copy | spider27_old/src/contain_morning_start.h:127-139 | a copy has the same entries and shows the same ones |
| MorningStart.MorningStartList.Insert | spider27_old/src/contain_morning_start.h:182-185 | the entry goes before the position and the boundary stays behind the same entry |
| MorningStart.MorningStartList.EraseAll | spider27_old/src/contain_morning_start.h:174-180 | nothing is left and nothing shown |
| MorningStart.MorningStartList.SortAll | spider27_old/src/contain_morning_start.h:195-200 | the same entries in some order, all visible |
| MorningStart.MorningStartList.OnlyStarting | spider27_old/src/contain_morning_start.h:202-216 | the visible part is exactly the enabled entries and the whole list is a permutation |
| MorningStart.EscalatorsContainer.PrepareMorningStart | spider27_old/src/contain_metro_escalators.h:815-830 | the list holds one entry for each id that belongs to an enabled escalator |
| MorningStart.EscalatorsContainer.ExecuteMorningStart | spider27_old/src/contain_metro_escalators.h:835-847 | sends the commands of the visible entries of this minute in list order |
| NodeLists.List.constructor | modbus_srv_old/list.h:38-46 | a new list is empty, with its head node and no index |
| NodeLists.List.Link | modbus_srv_old/list.h:68-74 | hanging a node behind the tail appends its item and keeps both directions of the links |
| NodeLists.List.Grow | modbus_srv_old/list.h:76-84 | an index without room gets 64 places more; it holds the same items |
| NodeLists.List.Push | modbus_srv_old/list.h:66-86 | appends the item to the nodes and to the index |
| NodeLists.List.Pop | modbus_srv_old/list.h:109-122 | removes and returns the last item, or nothing from an empty list |
| NodeLists.List.At | modbus_srv_old/list.h:61-64 | the index holds the item at its position in the node order |
| NodeLists.List.Search | modbus_srv_old/list.h:157-170 | walking the links returns the position of the first item with the property, or -1 if and only if there is none |
| NodeLists.List.Find | modbus_srv_old/list.h:157-170 | a search through the links followed by a look into the index gives the first item with the property |

## Left out

Assumptions about the surroundings:

- Threads, mutexes and condition variables: each section under a lock is one step; a trip of the receiver, a client
  thread and a connection are proved without other threads in between, the machines of steps with all of them.
- Sockets: an empty delivery stands for a receive that fails or times out and throws away what its call has gathered.
- Time: there is no change of local time, and the waits of `select`, `usleep` and the timers are not modelled beyond
  their outcomes; the pause before a transmission ends in a free line or in an error.
- A successful `shutdown` replaces the gateway program, so nothing happens after the reboot.
- Memory is never exhausted, except where a failed allocation of a client block is an outcome of opening the port.
- A short `fread` leaves its variable as it was, and writing a file does not fail.
- Every command of a schedule names a device of the container that made the schedule.
- The response files do not change during a run of the serial port emulator; the content of error answers is arbitrary.
- The second lock of `request_mutex` after `continue` (spider/com_port_emulator/main.cpp:696-704): waiting for a client
  is one step that does not keep the lock.
- The handlers of the serial port emulator run one after the other, as the single thread of the resource manager runs
  them, and a message from a client can always be read.
- `io_open_handler` clears the response slot under the lock of the request; the whole handler is one step.
- The record counter of the log stays within 32 bits; an old file that would take it beyond ends the load.

Parts of the repository that are not modelled:

- Photon widgets, dialogs, drawing, sound, alerts, configuration files, routing, the watchdog, message logging.
- `log_records_container::erase` and `rotate`, and the time of the file that `load` remembers.
- `List::Remove`, `List::PopHead`, the cursor, `Traverse`, and the destructors of `List` and `CmdPool`: they do not keep the
  index, the tail or the life of the nodes.
- `devctl` calls that read or set the terminal attributes.
- The regular expressions of the scripts: lines are taken as already told apart, and a printed line as one of the same
  kind. A hexadecimal prefix without digits is taken to give nothing.
- Which response file the operator puts where: the script and the emulator use different names.
- `TestCommand` of the gateway, which nothing starts.
- Passwords and prompts.

Contracts that say less than they could:

- ComPortTheory.ReadsAnswerWrites: does not say that the reader wrote the request, which is false in general; see QuietOpenIffOwnAnswer.
- DeviceThread.PublishesOnlyAccepted: says at least the implied length, since `recv` may deliver more; exactly when it is that length is StreamTheory.ExactLengthIff.
- MorningStart.MorningStartList.SortAll: claims a permutation only, because the comparison of the sort is not a strict weak order.
- Scheduler.MinutesAreConsecutive: needs ticks less than a minute apart, which the five-second timer gives as long as the program is not held up; see SchedulerClock.AGapExecutesYesterday.
