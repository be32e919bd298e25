# Smart-farm system: verified model

A Dafny model of the parts of the system where state, concurrency or encodings make correctness hard to see, with
proofs for all inputs and all runs. `dafny verify dfyconfig.toml` checks everything.

The system: sensor nodes (ESP32 slaves) send telemetry packets over a Wi-Fi mesh, relay to relay, to a master; the
master keeps the newest readings in a ring, enrolls its slaves with the backend (Host) and publishes batches over MQTT on
a WebSocket; Host enrolls masters and slaves against PostgreSQL and provisions the broker's Dynamic Security plugin; a
desktop window reads a node's data as JSON and broadcasts a key to the nodes.

| file | component |
|---|---|
| `Bytes.dfy`, `Wire.dfy` | octets, numbers in both byte orders, exclusive or |
| `JsonSyntax.dfy`, `JsonReader.dfy`, `JsonParser.dfy` | the JSON parser: concrete syntax trees with their printer, a reader, the cursor-moving parser class |
| `JsonWritten.dfy`, `JsonUtf8.dfy`, `JsonDocUtf8.dfy` | what its results mean: which texts are a value's, told from the octets alone; an independent UTF-8 decoder, and whole documents under it |
| `Snapshot.dfy` | the newest item of a data document and its hop list |
| `DynsecChannel.dfy`, `Dynsec.dfy` | the one-slot response channel; on top of it, provisioning one master on the broker |
| `HostTables.dfy`, `Enrollment.dfy`, `StoreBatch.dfy`, `Consumer.dfy` | Host's tables and single calls with exact success conditions |
| `MasterEnrollment.dfy`, `SlaveEnrollment.dfy`, `BatchIngest.dfy`, `HostRun.dfy` | the same transactions statement by statement, interleaved in any order, with row locks, pending unique keys, lost commands and lost commit acknowledgements |
| `EnrollmentAlone.dfy`, `BatchAlone.dfy` | without interference the stepwise transactions are the single calls |
| `WsCodec.dfy`, `MqttCodec.dfy` | WebSocket frames and MQTT 3.1.1 packets |
| `Relay.dfy`, `Framing.dfy` | mesh packets, their relaying, and their framing on up to four TCP streams |
| `TelemetryRing.dfy`, `PendingSlaves.dfy` | the master's ring and upload watermark; its retry queue for slave enrollments |
| `Upload.dfy`, `SlaveBinding.dfy` | master and Host together: what becomes of a published batch, and of a slave the master takes for enrolled |
| `Devices.dfy` | the key broadcast of the desktop window |
| `Sensor.dfy` | moving average, calibration curves and the sensor driver |

How the model is built. Code that changes state is a class with the source's fields and loops; each method is proved
against a function of the old state, and the theorems are about that function or about runs of it. The three Host
transactions exist twice: as methods that run alone, and as step systems in which every SQL statement and every broker
command is a step of its own, so that calls interleave freely; `EnrollmentAlone` and `BatchAlone` prove that a stepwise
transaction without interference ends as the method does. Integers are unbounded unless the source's width matters:
`size_t` sums on the ESP32 are modulo 2^32, packet ids and the filter's sum modulo 2^16.

What an operation means is stated apart from the function that computes it: texts and values by a relation on octets, a
credential by what the broker's login and publish rules then allow, masking bit by bit, frames and packets octet by
octet, a shown item and a published reading field by field, and the handlers of devices and slaves by what becomes of
each field.

Assumptions, each visible in the model as a parameter, a guard or a choice of the environment:

- PostgreSQL at READ COMMITTED: a row lock lasts until commit or rollback; an insert of a key that another open
  transaction has inserted waits. A session keeps its locks while its provisioning call runs, and no broker command
  takes effect after the call that sent it has returned.
- Any statement, broker command or commit may fail; a commit may succeed without the client learning it.
- The Dynamic Security plugin answers as `Dynsec.Execute` says and starts without roles for masters.
- The broker lets a client in by user, password and client id, and lets it publish where one of its roles has an allowing
  rule and none a forbidding one, with topic filters as in section 4.7 of MQTT 3.1.1.
- Message ids of broadcasts are fresh where a statement says so; uuids of pots that are in use are refused.
- Correlation ids of commands are fresh; whatever else the broker publishes on the response topic may arrive at any time.
- Socket reads find the bytes that are still to come (no read timeouts); nothing more comes of a frame in which its
  connection broke.

Where the code is narrower than its comments or documentation, the code is modelled and the difference is proved:

- A batch holds 16 readings while the watermark jumps to now (`src/network/network_manager.cpp:1002`, `:1032`): nothing is
  left unsent if and only if at most 16 readings were (`AckSendsAllUpToSixteen`), and the rest is never sent
  (`LeftBehindIsLost`; `SeventeenthReadingIsLost` is a run from the start).
- All readings of a batch share its time, so Host stores it only if no node is in it twice (`HostTakesTheBatchIf`), and
  the readings of a batch that was acknowledged and refused are lost (`AcknowledgedIsStoredOrLost`,
  `TwoReadingsOfOneNodeAreLost`).
- A publish whose acknowledgement is lost is repeated under a new message id and a new time
  (`src/network/network_manager.cpp:996-997`), so Host stores the readings twice (`LostAcknowledgementStoresTwice` says
  exactly when).
- The master replaces the relay path instead of prepending to it (`src/network/network_manager.cpp:511-512`;
  `MasterForgetsTheHops`).
- The table of enrolled slaves stops at four (`src/network/network_manager.cpp:813`;
  `FullTableForgetsAnAcceptedSlave`, `FifthSlaveWaitsAgain`, and with Host's answers `FifthSlaveIsBoundAndWaits`).
- A 409 to slaveEnroll is taken for "already bound" (`src/network/network_manager.cpp:812`), but Host gives it only when the
  master is not enrolled (`vps/internal/httpapi/server.go:231-232`), which a master with the preset password
  (`src/config/config.h:79`) can be; it answers 201 to a slave that is bound already. So at an enrolled master every
  accepted slave is bound (`AcceptedAreBound`), and at another it is recorded and never bound
  (`NotEnrolledStrandsASlave`).
- The response channel drops the call's own answer when a stale one still fills it
  (`vps/internal/dynsec/manager.go:126-129`; `OwnAnswerCounts` says exactly when).
- A string with an unpaired surrogate escape is accepted and is not UTF-8 (`lib/dataservice/json.hpp:166-186`;
  `StringIsUtf8` and `DocumentIsUtf8` are if and only if).
- A CONNECT with a password but no user name is one the standard forbids (`src/mqtt/mqtt_ws.cpp:278-280`;
  `ConnectReads`), and the receive decoder accepts a length of more than four octets whose sum wraps
  (`src/mqtt/mqtt_ws.cpp:344-351`; `AcceptsWholePackets`, `FiveOctetsWrap`).

## Model

| member | source | states |
|---|---|---|
| JsonReader.DocReads | lib/dataservice/json.hpp:68-265 | parsing undoes printing: any concrete document (any white space, any legal escapes and digits) is read back as exactly that document, all input consumed |
| JsonReader.ReadsExactlyTheGrammar | lib/dataservice/json.hpp:68-265 | both directions: a text is read as a document iff it is the text of that well-formed document; so the accepted language is one explicit grammar and no text has two derivations |
| JsonReader.ParsesExactlyTheDenotation | lib/dataservice/json.hpp:68-265 | a value comes out iff some well-formed document with this text denotes it |
| JsonReader.AcceptsRfc8259 | lib/dataservice/json.hpp:79-113 | every RFC 8259 text is accepted with the value it denotes; an accepted text is RFC 8259 iff its derivation has no leading zero, no \v or \f between tokens and no raw control byte |
| JsonParser.Parser.Parse | lib/dataservice/json.hpp:68-73 | the cursor-moving parser terminates on every byte string, with a value iff the string is one of the value's texts (`WritesPadded`) |
| JsonWritten.ParsesExactlyWhatIsWritten | lib/dataservice/json.hpp:68-265 | a value comes out of a text iff the text is the value's: literals, escapes and their octets, numbers, items and fields in order with any white space, all told from the octets; so whatever a printer chooses, the value it printed comes back |
| JsonParser.Parser.SkipWs | lib/dataservice/json.hpp:79-83 | the cursor ends behind the longest white space |
| JsonParser.Parser.Expect | lib/dataservice/json.hpp:88-91 | moves over the wanted character or not at all |
| JsonParser.Parser.ParseValue | lib/dataservice/json.hpp:99-113 | reads one value as the reader does, leaving the cursor behind it |
| JsonParser.Parser.ReadHex4 | lib/dataservice/json.hpp:115-127 | four hex digits give their number; how far a bad one moves the cursor |
| JsonParser.Parser.FinishUnicode | lib/dataservice/json.hpp:166-186 | combines a surrogate pair, or backs up to right behind the first escape when no low surrogate follows |
| JsonParser.Parser.ParsePiece | lib/dataservice/json.hpp:151-188 | one character or escape of a string, with the octets it adds |
| JsonParser.Parser.ParseString | lib/dataservice/json.hpp:147-191 | the octets collected are those of the pieces read; unterminated strings fail |
| JsonParser.Parser.ParseLiteral | lib/dataservice/json.hpp:193-200 | exactly the literal is read |
| JsonParser.Parser.ParseNumber | lib/dataservice/json.hpp:202-228 | the token handed to strtod is the longest number at the cursor |
| JsonParser.Parser.TakeFraction | lib/dataservice/json.hpp:208-213 | the optional fraction needs a digit |
| JsonParser.Parser.TakeExponent | lib/dataservice/json.hpp:214-220 | the optional exponent needs a digit |
| JsonParser.Parser.ParseArray | lib/dataservice/json.hpp:230-244 | the items are those of the elements read, in order |
| JsonParser.Parser.ParseObject | lib/dataservice/json.hpp:246-265 | the fields are those of the members read, in order, duplicates kept |
| JsonUtf8.DecodesScalar | lib/dataservice/json.hpp:129-145 | an independent RFC 3629 decoder gives back every scalar value from what appendUtf8 writes, whatever follows |
| JsonUtf8.SurrogateIsMalformed | lib/dataservice/json.hpp:129-145 | what appendUtf8 writes for a surrogate is not UTF-8 |
| JsonUtf8.EveryScalarHasAnEscape | lib/dataservice/json.hpp:166-186 | every scalar value can be written with \u escapes, with a pair iff it is at least U+10000 |
| JsonUtf8.EscapedScalarReads | lib/dataservice/json.hpp:115-186 | however a scalar value is escaped, the string read is its UTF-8 and decodes to it |
| JsonUtf8.StringIsUtf8 | lib/dataservice/json.hpp:147-191 | a string whose text between the quotes is UTF-8 is UTF-8 iff no surrogate escape in it is unpaired |
| JsonDocUtf8.DocumentIsUtf8 | lib/dataservice/json.hpp:68-265 | a text that is accepted is UTF-8 iff the text of each of its strings, keys included, is; then each string is UTF-8 iff no surrogate escape in it is unpaired, and all strings of the value are iff none is in the document |
| Snapshot.DataService.ApplyDataJson | lib/dataservice/dataservice.cpp:123-167 | succeeds iff the document has an array "items" with an object whose "time" (0 if absent) is at least -1; then there is one of largest time, and later than all behind it, whose "ph", "light", "moisture", "node_id" and "path" are shown, with the whole seconds of its time; otherwise nothing changes |
| Snapshot.Newest | lib/dataservice/dataservice.cpp:129-138 | the item with the largest time, the last one among equals; none iff no object has a time of at least -1 |
| Snapshot.NewestIsUnique | lib/dataservice/dataservice.cpp:129-138 | there is at most one newest item |
| Snapshot.SplitPath | lib/dataservice/dataservice.cpp:155-165 | the loop collects the non-empty parts between the separators |
| Snapshot.SplitLaws | lib/dataservice/dataservice.cpp:153-165 | an empty path has no parts, one without '>' is its only part, and '>' separates |
| Snapshot.SplitRecoversTheHops | lib/dataservice/dataservice.cpp:153-165 | splitting the hops written in full gives exactly the hops |
| Snapshot.HopsSurviveIfTheyFit | lib/dataservice/dataservice.cpp:153-165 | the hop list survives the 32-octet path field iff it fits |
| Snapshot.RelayedHopsAreRecovered | src/network/network_manager.cpp:504-535 | through any chain of slave relays the window gets exactly the hop list iff the names fit the field |
| Dynsec.Session.ProvisionMaster | vps/internal/dynsec/manager.go:77-92 | from any state earlier attempts can have left, whatever stale responses arrive: success iff every command that had to be sent was answered, each then published, carried out and decided by its own answer; the broker then lets the master in from its own client id with exactly this password, and lets it publish to its own topic and nowhere else; no other master is touched either way |
| Dynsec.Session.EnsureRole | vps/internal/dynsec/manager.go:142-159 | success iff both commands were answered; the role then has exactly the own-topic rule |
| Dynsec.Session.CreateOrUpdateClient | vps/internal/dynsec/manager.go:161-183 | success iff the create, and for an existing client the update, was answered; the user then logs in with this password from its own client id and in no other way |
| Dynsec.Session.Send | vps/internal/dynsec/manager.go:189-218 | the broker changes iff the command reached it; the outcome is the broker's own reply to this command if its answer was taken from the channel, and no verdict otherwise |
| Dynsec.VerdictIsTheReply | vps/internal/dynsec/manager.go:201-217 | for any arrivals in any order, a verdict is what the broker replied to this command, and its own answer did arrive |
| Dynsec.OnlyOwnAnswersCount | vps/internal/dynsec/manager.go:142-218 | over a whole provisioning call on one channel with whatever earlier commands and strangers leave in it, a command counts as answered only if it was published, carried out and its own answer arrived |
| Dynsec.CommandKeeps | vps/internal/dynsec/manager.go:142-183 | each command keeps every master role empty or with its own rule only, and touches no other master |
| Dynsec.OthersStayProvisioned | vps/internal/dynsec/manager.go:77-92 | credentials of another master stay in force |
| Dynsec.ProvisionedIsInForce | vps/internal/dynsec/manager.go:142-183 | by the broker's own rules of logging in and of publishing, provisioned credentials log in exactly with their password and client id, and publish exactly to the own telemetry topic |
| Dynsec.ScriptIs | vps/internal/dynsec/manager.go:142-183 | the four commands, field by field |
| Dynsec.AnyCaseIsRead | vps/internal/dynsec/manager.go:189-218 | an error text that says "already exists" in letters of either case counts as done before |
| DynsecChannel.Channel.Offer | vps/internal/dynsec/manager.go:118-130 | a response is dropped iff the slot is full |
| DynsecChannel.Channel.AwaitReply | vps/internal/dynsec/manager.go:201-217 | the outcome of the waiting loop for any sequence of arrivals, receives and the deadline |
| DynsecChannel.VerdictIsOwn | vps/internal/dynsec/manager.go:201-217 | a verdict always comes from a response with the own correlation id |
| DynsecChannel.ForeignContentsAreIgnored | vps/internal/dynsec/manager.go:201-217 | what other calls' responses contain makes no difference to the outcome |
| DynsecChannel.OwnAnswerCounts | vps/internal/dynsec/manager.go:118-130 | after foreign responses only, the own answer decides the call iff it meets an empty slot; else it is dropped and the call waits on |
| DynsecChannel.VerdictEmptiesTheSlot | vps/internal/dynsec/manager.go:201-217 | a response that decides a call is taken out of the channel |
| Enrollment.Service.CreateMasterProvisioning | vps/internal/enrollment/enrollment.go:67-82 | success iff the ids are valid, a token was drawn and the master is new; the returned token is then one that enrolls it |
| Enrollment.Service.EnrollMaster | vps/internal/enrollment/enrollment.go:84-105 | credentials come out iff the token is the unused one of an enabled master, every command was answered and the commit acknowledged; they then log in, and nothing else does, and publish to the own topic only; the token is gone; otherwise the row is unchanged unless the commit succeeded unnoticed |
| Enrollment.Service.EnrollSlave | vps/internal/enrollment/enrollment.go:107-121 | success iff the master is enrolled and enabled and the slave is new or the transfer token fits; the resulting tables in every case; pots and tokens of existing slaves never change |
| Enrollment.ValidIdsOwnTheirTopic | vps/internal/enrollment/enrollment.go:136-150 | a valid master id is what the consumer reads back from the one topic its owner may publish to |
| Enrollment.IdsAndLabels | vps/internal/enrollment/enrollment.go:136-157 | exactly which ids and labels are accepted |
| Enrollment.Secrets | vps/internal/enrollment/enrollment.go:159-164 | exactly which secrets are accepted: 32 characters without the white space around them, 256 with it |
| EnrollmentAlone.AloneIsEnrollMaster | vps/internal/store/store.go:78-117 | the statement-by-statement enrollment of a master, run alone, returns credentials and changes the row exactly when the single call does |
| EnrollmentAlone.AloneIsEnrollSlave | vps/internal/store/store.go:119-171 | the statement-by-statement enrollment of a slave, run alone, ends with the tables and the verdict of the single call |
| EnrollmentAlone.FailureCanBeRetried | vps/internal/store/store.go:78-117 | however far a call came when it failed without committing, and whatever it left on the broker, a new call with the same token returns credentials that are in force, if its commands are answered and its commit succeeds |
| MasterEnrollment.StepKeeps | vps/internal/store/store.go:78-117 | any step of any call, in any interleaving, keeps the locks exclusive and the broker at what each call in progress or returned has done |
| MasterEnrollment.CredentialsAreUnique | vps/internal/store/store.go:78-117 | in a state kept by all steps two calls that returned credentials for one master are the same call, and its password, and no other, logs the master in |
| MasterEnrollment.WhyRefused | vps/internal/store/store.go:90-105 | which of the four errors a row gives, or that the token is the unused one of an enabled master |
| MasterEnrollment.RowsChangeOnlySo | vps/internal/store/store.go:108-112 | a step disables or enables a master only if it is an administrator's, and uses up a token and records the user name only at the commit of that master's enrollment |
| MasterEnrollment.NewRowsAreFresh | vps/internal/store/store.go:66-76 | a new row is that of a master neither enrolled nor disabled, with its token |
| SlaveEnrollment.StepKeeps | vps/internal/store/store.go:119-171 | any step keeps: every pot has one slave, every slave an enrolled master though that check takes no lock; a slave changes master only by a call that presented its token |
| SlaveEnrollment.CreateKeeps | vps/internal/store/store.go:144-155 | a committed creation adds a pot and its slave together |
| SlaveEnrollment.TransferKeeps | vps/internal/store/store.go:160-170 | a committed transfer changes master and label only |
| StoreBatch.Database.StoreBatch | vps/internal/store/store.go:38-64 | the loop over the readings stores the batch as the transaction function says |
| StoreBatch.StoresExactlyTheStorable | vps/internal/store/store.go:38-64 | stored iff the master exists, the message is new, the slaves are distinct, enabled and bound to it, no measurement of that time exists and the values are in range; then one batch row and one row per reading are added, otherwise nothing changes |
| StoreBatch.RepeatIsNoOp | vps/internal/store/store.go:44-50 | redelivering a batch that once committed changes nothing, whatever happened in between |
| StoreBatch.AtLeastOnceIsExactlyOnce | vps/internal/store/store.go:38-64 | for single calls one after the other: a run with repeated deliveries ends in the same tables as the run with the repeats removed |
| BatchIngest.StepKeeps | vps/internal/store/store.go:38-64 | any statement of any concurrent call keeps batches and measurements accounting for each other |
| BatchIngest.CommitKeeps | vps/internal/store/store.go:60-63 | a commit adds the batch row and every one of its readings, and spares what other open transactions have inserted |
| BatchIngest.StepKeepsKnownMasters | vps/migrations/000001_initial.up.sql:29-36 | every batch row refers to an existing master, in every interleaving |
| BatchIngest.RedeliveryIsNoOp | vps/internal/store/store.go:44-50 | a call for a stored batch ends without an error and without a change |
| BatchAlone.AloneIsStoreBatch | vps/internal/store/store.go:38-64 | the statement-by-statement transaction run alone ends with the tables and the verdict of the sequential method |
| HostRun.RunKeeps | vps/internal/store/store.go:38-171 | all invariants hold after every run of the whole Host |
| HostRun.CredentialsLast | vps/internal/enrollment/enrollment.go:84-105 | once a call has returned credentials for a master no other ever does, and for the rest of the run the broker logs the master in with the returned password only, and lets it publish to its own topic only |
| HostRun.SlavesKeepTheirPots | vps/internal/store/store.go:119-171 | in every reachable state each pot has exactly one slave and each slave an enrolled master; pots and transfer tokens never change |
| HostRun.BatchesAreWhole | vps/internal/store/store.go:38-64 | in every reachable state a batch is there with all its readings and a measurement came with exactly one committed batch; a call that ended without an error left its batch in the tables |
| HostRun.RedeliveryChangesNothing | vps/internal/store/store.go:44-50 | a committed batch stays, and delivering it again in any later state changes no table |
| HostRun.RepeatsCanBeDropped | vps/internal/store/store.go:38-64 | for every interleaved run: with the statements of all repeated deliveries removed the run is still possible and ends in the same tables, broker and other calls |
| HostRun.TransferredReadingIsRefused | vps/internal/store/store.go:52-58 | a slave was bound to a master and its transfer away committed: in every later state a reading for it that the old master has still to insert is refused with its whole batch, unless a call asked anew to move it back |
| HostRun.UnboundReadingIsRefused | vps/internal/store/store.go:52-58 | the same for a slave that is bound elsewhere, however it came there |
| HostRun.TransferGoesThrough | vps/internal/store/store.go:119-171 | from every state where nobody has the row locked the transfer to another enrolled master runs to its commit, rebinds the slave, and establishes what the refusal needs |
| Consumer.TopicNamesItsMaster | vps/internal/telemetry/consumer.go:52-58 | a message is taken for a master iff it came on the one topic the broker lets that master publish to |
| Consumer.JoinSplits | vps/internal/telemetry/consumer.go:53 | splitting undoes joining |
| Consumer.SplitJoins | vps/internal/telemetry/consumer.go:53 | joining undoes splitting, and no part contains the separator |
| Consumer.HandlesExactly | vps/internal/telemetry/consumer.go:32-50 | a message changes the database iff it is a valid batch on its master's topic, storable and committed; validation implies the table's range checks |
| Consumer.ValidBatches | vps/internal/telemetry/telemetry.go:29-75 | exactly which batches are valid, and that the table's range checks are those of validation |
| WsCodec.Socket.Send | src/mqtt/mqtt_ws.cpp:159-188 | what goes out is one frame of RFC 6455 section 5.2 in the shortest length form, whose octets unmasked bit by bit are the data; or its beginning up to where the connection broke |
| WsCodec.Socket.PutHeader | src/mqtt/mqtt_ws.cpp:160-179 | the header for all three length forms |
| WsCodec.Socket.WriteMasked | src/mqtt/mqtt_ws.cpp:182-187 | every octet sent differs from the payload's in exactly the bits of the key's; or a beginning goes out |
| WsCodec.Socket.WriteAll | src/mqtt/mqtt_ws.cpp:83-96 | the bytes go out as far as the connection takes them |
| WsCodec.Socket.ReadPayload | src/mqtt/mqtt_ws.cpp:226-263 | a frame that is there is taken off the stream and its payload, cut to the buffer, unmasked in place; otherwise the stream runs dry |
| WsCodec.Socket.ReadLength | src/mqtt/mqtt_ws.cpp:245-253 | the announced length in all three forms, modulo 2^32 |
| WsCodec.Socket.ReadHead | src/mqtt/mqtt_ws.cpp:242-255 | opcode, length and mask as the head announces them |
| WsCodec.Socket.ReadBody | src/mqtt/mqtt_ws.cpp:257-259 | what does not fit the buffer is drained |
| WsCodec.Socket.Unmask | src/mqtt/mqtt_ws.cpp:260 | every octet changes in exactly the bits of the key's |
| WsCodec.FrameRoundTrip | src/mqtt/mqtt_ws.cpp:159-263 | a written frame of any length form and mask is read back as its opcode and payload cut to the buffer, the stream left right behind it |
| WsCodec.WrittenIsAFrame | src/mqtt/mqtt_ws.cpp:159-188 | the octets of a written frame are those of section 5.2, told one by one, with the masking of section 5.3 bit by bit |
| WsCodec.FrameIsRead | src/mqtt/mqtt_ws.cpp:226-263 | any final frame of section 5.2, masked or not and in any of the three length forms, is read as its opcode and payload cut to the buffer, the stream left right behind it |
| WsCodec.StreamRoundTrip | src/mqtt/mqtt_ws.cpp:159-263 | so is any sequence of frames |
| WsCodec.LaterBytesDoNotMatter | src/mqtt/mqtt_ws.cpp:226-263 | bytes that arrive later change nothing about a frame that is there |
| Wire.XorUndoes | src/mqtt/mqtt_ws.cpp:184 | masking twice with one octet gives the octet back |
| Wire.XorIs | src/mqtt/mqtt_ws.cpp:184 | the exclusive or is the octet that has exactly the bits in which the two differ |
| MqttCodec.PutVarInt | src/mqtt/mqtt_ws.cpp:34-42 | the loop writes the remaining-length code into at most four octets |
| MqttCodec.VarRoundTrip | src/mqtt/mqtt_ws.cpp:34-42 | the value of the code is the number, for all numbers |
| MqttCodec.VarIntSize | src/mqtt/mqtt_ws.cpp:44-48 | the number of octets is the table of section 2.2.3 of MQTT 3.1.1 |
| MqttCodec.DecodeHeader | src/mqtt/mqtt_ws.cpp:342-351 | the receive loop computes type, body position and length in 32-bit arithmetic |
| MqttCodec.HeaderOfPacket | src/mqtt/mqtt_ws.cpp:342-351 | of every packet the decoder finds the type, and header and body make up the packet exactly |
| MqttCodec.AcceptsWholePackets | src/mqtt/mqtt_ws.cpp:344-351 | an accepted packet is whole iff header and length do not wrap around; always with a length of at most four octets |
| MqttCodec.FiveOctetsWrap | src/mqtt/mqtt_ws.cpp:344-351 | a concrete packet with a five-octet length that is accepted without its body |
| MqttCodec.Client.BuildConnect | src/mqtt/mqtt_ws.cpp:268-300 | the buffer, shifted in place, holds type octet, encoded length and body, within 512 bytes |
| MqttCodec.PutBehindFirst | src/mqtt/mqtt_ws.cpp:292-299 | the overlapping move and the inserted length lose nothing |
| MqttCodec.MoveUp | src/mqtt/mqtt_ws.cpp:298 | memmove towards the end of the same buffer |
| MqttCodec.ConnectFits | src/config/config.h:31-34 | with the configured field sizes CONNECT has at most 243 of the 512 bytes |
| MqttCodec.ConnectReads | src/mqtt/mqtt_ws.cpp:268-302 | a server reading by section 3.1 gets back client id, user name, password, clean session and keep-alive, except iff a password comes without a user name |
| MqttCodec.Client.SendConnect | src/mqtt/mqtt_ws.cpp:268-302 | one binary frame with the CONNECT packet |
| MqttCodec.Client.SendPublish | src/mqtt/mqtt_ws.cpp:304-326 | one binary frame with the PUBLISH packet, or nothing without memory |
| MqttCodec.Client.Publish | src/mqtt/mqtt_ws.cpp:467-471 | the packet carries the next packet id |
| MqttCodec.PublishReads | src/mqtt/mqtt_ws.cpp:304-326 | a server reading by section 3.3 gets back topic, packet id and payload |
| MqttCodec.PublishArrives | src/mqtt/mqtt_ws.cpp:304-326 | through both layers: what is taken off the WebSocket stream is the message published |
| MqttCodec.IdsDiffer | src/mqtt/mqtt_ws.cpp:469-470 | packet ids are never 0 and any 65535 publishes in a row have different ones |
| Relay.BuildPacket | src/network/network_manager.cpp:426-443 | the packet is built in the buffer, or nothing is written when it is too small |
| Relay.PacketReads | src/network/network_manager.cpp:426-454 | a built packet verifies, fits the buffers and gives back type, node id and payload |
| Relay.PacketLayout | src/network/network_manager.cpp:426-443 | where magic, version, type, node id, payload and CRC stand, octet by octet |
| Relay.HandleSensorData | src/network/network_manager.cpp:504-535 | the forwarded buffer is the packet with the new path and a new CRC; too short packets are ignored |
| Relay.ReplacePath | src/network/network_manager.cpp:520-526 | path and CRC are replaced in place, nothing else |
| Relay.Seal | src/network/network_manager.cpp:438-440 | the CRC covers everything in front of it |
| Relay.CutOfCut | src/network/network_manager.cpp:513-516 | truncating commutes with prepending |
| Relay.RelaysKeepTheReading | src/network/network_manager.cpp:504-535 | through any chain of slave relays only path and CRC change, the packet verifies, and the path is the first 32 characters of all hops in full |
| Relay.MasterForgetsTheHops | src/network/network_manager.cpp:511-512 | at a master the path is then the master alone |
| Relay.OwnPacketStartsAChain | src/network/network_manager.cpp:630-668 | a node's own telemetry packet verifies and starts with its own name, whatever the stack held behind the string |
| Relay.OwnPacketSays | src/network/network_manager.cpp:630-668 | where the own telemetry has time, address, name, path and values |
| Relay.HopTextIs | src/network/network_manager.cpp:508-512 | a hop is the letter of its role and its id |
| Framing.StaController.SendFrame | src/network/sta_controller.cpp:114-125 | the stream is always whole frames, and behind them at most the beginning of the one in which the connection broke; a frame is added iff connected, of the right size and taken whole; the octets of the body written are returned |
| Framing.FramesAre | src/network/sta_controller.cpp:114-125 | packets of 1 to 143 octets behind their length, low octet first |
| Framing.ApController.ReadFrame | src/network/ap_controller.cpp:70-91 | the first slot with a whole header is read; slots before it had none or a bad length |
| Framing.TurnIs | src/network/ap_controller.cpp:70-91 | which lengths are accepted, where the packet stands, and what is left of the stream, octet by octet |
| Framing.ApController.ReadBody | src/network/ap_controller.cpp:81-88 | the body is complete and in order, in chunks of any size |
| Framing.ApController.Admit | src/network/ap_controller.cpp:57-68 | a waiting connection gets the first free slot or none |
| Framing.ReadFromTurns | src/network/ap_controller.cpp:70-91 | the run's read step is what the method does, slot by slot |
| Framing.PacketsComeWholeAndInOrder | src/network/ap_controller.cpp:54-91 | in every run, whatever arrives when, wherever connections break, what was returned of a connection is the beginning of what it sent whole, in order and once; of an open connection the rest is to come |
| Framing.NothingIsLeftBehind | src/network/ap_controller.cpp:54-91 | when everything has arrived and nothing is found, every open connection has been read to the end |
| Framing.ReadMakesProgress | src/network/ap_controller.cpp:70-91 | a read takes exactly one packet when some connection has a whole header |
| TelemetryRing.NetworkHandler.Push | src/network/network_manager.cpp:671-693 | the ring goes on representing the last readings pushed |
| TelemetryRing.NetworkHandler.TelemetryAt | src/network/network_manager.cpp:747-752 | the last min(n, 64) readings, oldest first |
| TelemetryRing.NetworkHandler.PublishBatch | src/network/network_manager.cpp:992-1036 | the batch is the first 16 readings in the ring above the watermark; the watermark moves iff the batch was empty or acknowledged |
| TelemetryRing.EligibleIs | src/network/network_manager.cpp:1001-1019 | a batch has rising positions of readings above the watermark |
| TelemetryRing.EligibleIsAll | src/network/network_manager.cpp:1001-1019 | a batch with room to spare has all of them |
| TelemetryRing.AckedBatchesAreDisjoint | src/network/network_manager.cpp:992-1036 | in every run with a monotone clock no reading is in two acknowledged batches |
| TelemetryRing.SentAgainIf | src/network/network_manager.cpp:1001-1032 | with readings from the future: what an acknowledged batch sent is in the next one iff the ring still holds it, its time is after that batch, and fewer than 16 such readings are in front of it |
| TelemetryRing.FutureReadingIsSentTwice | src/network/network_manager.cpp:1001-1032 | a run from the start in which a reading of a node whose clock is ahead is in two acknowledged batches |
| TelemetryRing.PushesKeepEligible | src/network/network_manager.cpp:1001-1019 | however many readings are pushed, one of the next batch stays in it iff the ring still holds it |
| TelemetryRing.FailureKeepsEligible | src/network/network_manager.cpp:1028-1035 | after a failed publish, over any later pushes, connects and failed publishes, each reading of the batch is in the next batch iff the ring still holds it, and the next acknowledged publish sends it |
| TelemetryRing.AckSendsAllUpToSixteen | src/network/network_manager.cpp:1001-1032 | an acknowledged batch leaves nothing unsent iff at most 16 readings were unsent |
| TelemetryRing.LeftBehindIsLost | src/network/network_manager.cpp:1032 | what it leaves is in no later batch |
| TelemetryRing.SeventeenthReadingIsLost | src/network/network_manager.cpp:1001-1032 | a run from the start: of 17 readings in one interval the first 16 are acknowledged and the last is in no batch of any continuation |
| TelemetryRing.LateReadingIsLost | src/network/network_manager.cpp:1005 | a reading not newer than the watermark when pushed is in no later batch |
| TelemetryRing.HostTakesTheBatchIf | src/network/network_manager.cpp:994-1018 | Host stores a published batch iff master, message, bindings, times and ranges allow it and no node is in it twice |
| TelemetryRing.DocumentSays | src/network/network_manager.cpp:992-1018 | what the published document says of each reading, field by field |
| Upload.AcknowledgedIsStoredOrLost | src/network/network_manager.cpp:992-1036 | an acknowledged batch is stored with every reading, or Host's tables are unchanged; either way none of its readings is in any later batch |
| Upload.TwoReadingsOfOneNodeAreLost | src/network/network_manager.cpp:994-1032 | a run from the start: two readings of one node make a batch that is acknowledged, that no database stores and that no continuation sends again |
| Upload.LostAcknowledgementStoresTwice | src/network/network_manager.cpp:996-997 | when a batch is stored and its acknowledgement lost, the next publish has the same readings; Host stores them again iff id and time are new, and then each is in the table twice |
| PendingSlaves.NetworkHandler.IsSlaveEnrolled | src/network/network_manager.cpp:759-764 | membership in the table |
| PendingSlaves.NetworkHandler.PushPending | src/network/network_manager.cpp:773-783 | queued once, while there is room |
| PendingSlaves.StoredIs | src/network/network_manager.cpp:773-783 | how much of id, label and token is kept |
| PendingSlaves.NetworkHandler.SlaveEnroll | src/network/network_manager.cpp:792-822 | accepted on 201 and 409; recorded while the table has room |
| PendingSlaves.NetworkHandler.OnSlaveHello | src/network/network_manager.cpp:766-790 | when a hello records, queues or changes nothing, and exactly what each table then has |
| PendingSlaves.NetworkHandler.FlushPendingSlaves | src/network/network_manager.cpp:824-852 | what a flush does to the two tables |
| PendingSlaves.FlushKeepsExactlyTheFailed | src/network/network_manager.cpp:824-852 | a flush keeps exactly the failed ids in their order; every other one that waited has been accepted |
| PendingSlaves.FlushSeparatesTheTables | src/network/network_manager.cpp:824-852 | afterwards nobody waits who is in the enrolled table; who waits was ever accepted iff that was so before, and nobody was as long as the table had room |
| PendingSlaves.FullTableForgetsAnAcceptedSlave | src/network/network_manager.cpp:813-816 | with a full table an accepted slave can wait again |
| PendingSlaves.FifthSlaveWaitsAgain | src/network/network_manager.cpp:766-822 | a run from the start that ends with an accepted slave waiting: the fifth accepted one says hello again while the backend fails |
| PendingSlaves.NoSlaveIsForgotten | src/network/network_manager.cpp:766-852 | in any run at most four distinct ids wait, and an id that once waited still waits or has been accepted |
| SlaveBinding.AnswersMean | src/network/network_manager.cpp:792-822 | the master sees 201 iff Host can bind the slave, commits, and the answer gets back, 409 iff the master is known, not disabled and not enrolled, and 401 iff it is unknown or disabled or the token does not fit; 201 leaves the slave bound, 409 changes nothing; the slave is bound afterwards iff it was before or a commit bound it |
| SlaveBinding.SilentHello | src/network/network_manager.cpp:766-771 | Host hears only of hellos of unknown slaves with id and token, from an enabled master with a password |
| SlaveBinding.RunIsARun | src/network/network_manager.cpp:766-852 | a run of the master against Host is a run of its two tables with statuses that Host gave, so that what holds of those holds here |
| SlaveBinding.AcceptedAreBound | src/network/network_manager.cpp:766-852 | in every run at an enrolled master, whatever is lost or fails, each slave slaveEnroll accepted is bound to it as long as nobody else moves it away |
| SlaveBinding.RecordedIsNotRetried | src/network/network_manager.cpp:766-852 | a slave that is recorded but not bound stays so in every run in which nobody else binds it |
| SlaveBinding.NotEnrolledStrandsASlave | src/network/network_manager.cpp:792-822 | from the start, a master with a password that Host has not enrolled: the hello is answered 409, the slave is recorded, and nothing the master does later binds it |
| SlaveBinding.FifthSlaveIsBoundAndWaits | src/network/network_manager.cpp:766-822 | a run from the start with the answers of Host: five new slaves are bound, and the fifth waits again after one failed transaction |
| Devices.DeviceManager.HandleHello | windowConfig/src/devices/DeviceManager.cpp:83-136 | every field of the device afterwards, where its id came from, and that everything else stays; the status is Online whatever it was |
| Devices.FallbackOfAnAddress | windowConfig/src/devices/DeviceManager.cpp:73-81 | an ordinary address without an id is named by its last three pairs |
| Devices.FallbackOfALongAddress | windowConfig/src/devices/DeviceManager.cpp:73-81 | any address of at least six characters by its last six |
| Devices.FallbackOfAShortAddress | windowConfig/src/devices/DeviceManager.cpp:73-81 | a shorter one by a number of at least three digits, one more than there are devices |
| Devices.DeviceManager.PrepareForBroadcast | windowConfig/src/devices/DeviceManager.cpp:138-158 | every device that was not offline waits and carries the id, and the others are as they were |
| Devices.DeviceManager.HandleAck | windowConfig/src/devices/DeviceManager.cpp:160-202 | the device takes address, time, id and verdict of the answer and no other device changes; the broadcast is summarised early iff nobody waits any more |
| Devices.DeviceManager.OnAckTimeout | windowConfig/src/devices/DeviceManager.cpp:204-233 | the devices that wait with the broadcast's id time out, and the four counters are those of the devices before |
| Devices.DeviceManager.OnHeartbeatCheck | windowConfig/src/devices/DeviceManager.cpp:235-256 | exactly the devices not heard from for longer than the threshold go offline |
| Devices.EventKeeps | windowConfig/src/devices/DeviceManager.cpp:83-256 | every event keeps the invariant |
| Devices.StatusesAreExplained | windowConfig/src/devices/DeviceManager.cpp:83-256 | in every reachable state a waiting device waits for the pending broadcast and has its id, a verdict was received for exactly the stored id, none is timed out while a broadcast is pending, and ids are the known ones |
| Devices.EachBroadcastIsSummarisedOnce | windowConfig/src/devices/DeviceManager.cpp:204-233 | with fresh ids no broadcast is summarised twice, and none that was not sent |
| Devices.SummaryAddsUp | windowConfig/src/devices/DeviceManager.cpp:204-233 | targets = received + errors + timeouts + stamped devices now Online or Offline; no timeouts when nobody waits |
| Devices.EverySummaryIsExplained | windowConfig/src/devices/DeviceManager.cpp:160-233 | in every run: the sum, no timeouts on an early summary, and a device is a target iff its last answer since the broadcast was for it or, without an answer, it was not offline when the broadcast went out (or was, with that id already) |
| Sensor.MovingAverage.Add | src/math/filters.hpp:14-20 | the 16-bit sum stays the sum of the window modulo 2^16 |
| Sensor.MovingAverage.Get | src/math/filters.hpp:22-24 | that sum divided by the number of samples |
| Sensor.MovingAverage.Reset | src/math/filters.hpp:26-31 | the filter is empty again |
| Sensor.WindowMoves | src/math/filters.hpp:14-20 | what leaves and enters the window with one more sample |
| Sensor.AverageIsExactIfItFits | src/math/filters.hpp:14-24 | the floor average of the last eight samples comes out iff their true sum fits 16 bits |
| Sensor.SumIs | src/math/filters.hpp:14-20 | the sum the average is taken of adds up sample by sample |
| Sensor.AverageIs | src/math/filters.hpp:14-24 | the average is the sum over the number of samples, rounded down, of all samples up to eight and then of the last eight |
| Sensor.TwelveBitsFit | src/hardware/sensor_driver.cpp:32-38 | 12-bit samples always fit |
| Sensor.RisingCurve | src/math/calibration.hpp:18-31 | over a sorted rising table the curve is monotone and within its end values |
| Sensor.FallingCurve | src/math/calibration.hpp:18-31 | over a sorted falling table the curve falls and stays within its end values |
| Sensor.CurveMeetsItsPoints | src/math/calibration.hpp:18-31 | the curve goes through every point of its table |
| Sensor.CurveIsStraight | src/math/calibration.hpp:18-31 | between two neighbouring points it is the straight line through them |
| Sensor.ReadingIs | src/math/calibration.hpp:34-59 | pH, light and moisture as a formula of the own channel's value each |
| Sensor.EveryReadingIsInRange | src/math/calibration.hpp:34-59 | every reading of the three curves passes the backend's range checks, and the clamp changes nothing |
| Sensor.SensorDriver.Read | src/hardware/sensor_driver.cpp:29-51 | every reading is in range, and with sums that fit it is the curves of the three floor averages |

## Left out

- Enrollment.Service.EnrollSlave: the uuid of a new pot that is already in use counts as a failed statement.
- MqttCodec.PublishReads: topics are at most 65535 octets, the most MQTT's length field can say; longer ones are not promised.
- PendingSlaves.FullTableForgetsAnAcceptedSlave: one state of a family; the positive half is `FlushSeparatesTheTables`.
- Framing.PacketsComeWholeAndInOrder: assumes that the rest of a body whose connection is still there comes within the wait of 300 ms; after a timeout `readFrame` has dropped bytes and the stream loses its frames.
- TelemetryRing.AckedBatchesAreDisjoint: assumes a monotone clock and no reading from the future when a batch is published; `SentAgainIf` says what happens with such readings.
- SlaveBinding.AcceptedAreBound: as long as no other call moves a slave of the master away.
- HostRun.TransferredReadingIsRefused: as long as no call that was open at the commit or begun after it asks to bind the slave to the old master; such a call may move it back.
- StoreBatch.AtLeastOnceIsExactlyOnce: single calls only; `HostRun.RepeatsCanBeDropped` is the statement for interleaved ones.
- Interleaved calls are step systems on values: a method cannot be interrupted; the methods are the single calls.
- The share lock that an insert's foreign key takes on the referenced row: the model lets more interleavings happen, and proves that the references hold anyway.
- `strtod`, the ROM CRC32, SHA-256, random numbers: functions or parameters; JSON numbers stay tokens; strtod accepts every token of the number grammar.
- Recursion depth of the JSON parser: the model's stack is unbounded.
- `scalarString`, `load` and `applyConfigJson`: field-by-field copying.
- Go's JSON decoding of a batch, Go's Unicode white space in secrets (ASCII only here), `created_at` and other columns no query reads.
- The WebSocket handshake, `wsRecv` (not called), ping, what `mqttWaitPacket` and `mqttWaitFor` do with a packet after its header: thin dispatch, and any PUBACK counts as an acknowledgement.
- Timeouts of socket reads and `writeAll`'s safety exit.
- Floating-point rounding in calibration and time: reals and whole seconds.
- `broadcastFrame`, hello, heartbeat, provisioning and configuration packets of the mesh: built with the same packet functions.
- Texts shown to the user, logs and the device store of the window; the order in which its signals are emitted.
- HTTP and TLS clients, Wi-Fi, NVS, GPIO, hotspot control, web user interfaces, access control, deployment.
