# SQL Server Browser client — protocol layer

This project is a Dafny model of the protocol layer of a client for the SQL Server Browser service, the Microsoft [MC-SQLR] SQL Server Resolution Protocol. It has three parts:

- **Wire codec** (`Messages`, in `messages.dfy`).
  - The four client requests: CLNT_BCAST_EX, CLNT_UCAST_EX, CLNT_UCAST_INST and CLNT_UCAST_DAC, the two named ones behind instance-name validation.
  - Decoding of the two SVR_RESP shapes: the general one (0x05, little-endian 16-bit size, text) and the fixed six-byte DAC reply.
  - The two INST/DAC builders are methods over an `array<byte>`, as in the source: header and terminator written by index, the middle filled by an `Array.Copy` loop.
- **Instance descriptor** (`Instances`, in `instances.dfy`).
  - `Parse` is the SqlInstance constructor: a loop over the `;`-split tokens whose cursor steps by two and jumps four further on `bv`. It is proved equal to `Describe`, a definition over the list of positions the cursor visits.
  - The record is a datatype whose fields are `Option`s (None where the source leaves null).
  - `Version.Parse`, the version-to-name table and the `SqlServerVersion` lookup.
- **Discovery sessions** (`Browser`, in `browser.dfy`).
  - `ProcessIncomingInstanceData` is a counted receive loop over a trace of receive outcomes, with an inner loop over each reply's `;;`-separated descriptors. It is proved equal to `Collect`, a recursive definition over the replies to the first expectedClients receives (`Replies`: each receive's datagram decoded and parsed, or its socket error).
  - `GetInstances`, `GetInstancesOn`, `GetInstance` and `GetDacPort`, each with its default-timeout overload. Each returns its result and a `Session` record: the receive timeout, broadcast flag, connected endpoint, and the log of socket events (each datagram sent and each Receive call) in the order they happen.

Supporting modules:

- `Text` (`text.dfy`): `String.Split` with a string separator, `RemoveEmptyEntries`, `IsNullOrWhiteSpace`, and the single-byte code page.
- `Numbers` (`numbers.dfy`): `int.Parse` on decimal text.
- `Errors` (`errors.dfy`): the .NET exceptions as an `Error` datatype.
- `Wrappers` (`wrappers.dfy`): `Option` and `Result`.

Exceptions are `Failure` values of `Result`.

Where a reader might expect otherwise, the model follows the code:

- **Timeouts during discovery.**
  - One might expect a receive timeout during multi-host collection to be the normal end of the stream.
  - In the code, the exception filter at SqlServerBrowser.cs:254 catches every socket error *except* `TimedOut`. So a timeout propagates to the consumer as a SocketException, and any other socket error ends the sequence silently.
- **Timeout in GetInstance.**
  - The doc comment at SqlServerBrowser.cs:161 names InvalidOperationException for an instance that does not exist, which suggests a timed-out receive reads as "not found".
  - In the code the timeout escapes as a SocketException. A non-timeout socket error yields an empty sequence, which is renamed to "Instance does not exist on target server".
- **VIA and Banyan VINES records.**
  - Classes for both exist, but the constructor never fills them.
  - In the code, `via` falls through as an unrecognised key, and `bv` skips five tokens without storing them. A `bv` with fewer than five tokens after it simply ends the walk, without an exception.

## Model

| member | source | states |
|---|---|---|
| Messages.ClientBroadcastEx | Messages.cs:13-16 | CLNT_BCAST_EX is exactly the one byte 0x02 |
| Messages.ClientUnicastEx | Messages.cs:23-26 | CLNT_UCAST_EX is exactly the one byte 0x03 |
| Messages.InstanceNameBytes | Messages.cs:101-122 | accepts exactly the names that are not blank and have at most 32 characters. The result is the name's encoding, 1 to 32 bytes. A blank name gives ArgumentException("Instance name cannot be empty"); a longer name gives ArgumentOutOfRangeException with the 32-character message |
| Messages.InstanceNameBytesRoundTrip | Messages.cs:113-121 | decoding the accepted name bytes gives back the name whenever it is Latin-1 |
| Messages.CopyInto | Messages.cs:41 | Array.Copy: the array afterwards is its old prefix, then the source bytes, then its old suffix |
| Messages.ClientUnicastInstance | Messages.cs:33-44 | a rejected name passes its exception through. Otherwise the datagram has length \|name bytes\|+2, at most 34. It is 0x04, the name bytes, then 0x00 |
| Messages.ClientUnicastDac | Messages.cs:51-63 | a rejected name passes its exception through. Otherwise the datagram has length \|name bytes\|+3, at most 35. It is 0x0F 0x01, the name bytes, then 0x00 |
| Messages.RequestRoundTrip | Messages.cs:13-63 | decoding any of the four requests strips the header and terminator and recovers the request, the name bytes included |
| Messages.DecodedRequestIsEncoding | Messages.cs:13-63 | every datagram that decodes as a request is that request's encoding |
| Messages.ServerResponse | Messages.cs:70-80 | succeeds exactly when the buffer has at least 3 bytes, starts with 0x05 and holds 3+size bytes, where size is byte1 + 256·byte2. The text encodes back to bytes [3, 3+size). A wrong first byte is InvalidDataException |
| Messages.ServerResponseRoundTrip | Messages.cs:70-80 | decoding an SVR_RESP built for any Latin-1 text below 65536 characters gives the text back, whatever bytes follow the payload |
| Messages.ShortResponseRejected | Messages.cs:77-79 | a buffer shorter than 3+size is ArgumentOutOfRangeException, never a truncated string |
| Messages.ServerResponseExample | Messages.cs:70-80 | 05 04 00 'T' 'E' 'S' 'T' decodes to "TEST" |
| Messages.ServerResponseDacAsWritten | Messages.cs:87-99 | the source's decoder: accepts exactly 6-byte buffers starting 05 06 00 01, otherwise InvalidDataException. The value is byte4·256 + 1, in 1..65281 |
| Messages.ServerResponseDac | Messages.cs:87-99 | the corrected decoder: same acceptance and error. The port is byte4 + 256·byte5, in 0..65535 |
| Messages.DacResponseRoundTrip | Messages.cs:89-98 | the corrected decoder recovers every port a server can announce |
| Messages.DacResponseDecodedIsEncoding | Messages.cs:89-98 | every buffer the corrected decoder accepts is the DAC reply for the port it returns |
| Messages.DacAsWrittenMisreadsPort | Messages.cs:98 | for the reply announcing port 2700 (05 06 00 01 8C 0A), the source's decoder gives 35841 and the corrected one 2700 |
| Text.JoinSplit | SqlInstance.cs:89 | String.Split loses nothing: joining the pieces with the separator gives the string back |
| Text.SplitJoin | SqlInstance.cs:89 | splitting the join of separator-free pieces gives exactly those pieces |
| Text.SplitPiecesAvoid | SqlInstance.cs:89 | no token of a split on ';' contains ';' |
| Text.RemoveEmpty | SqlServerBrowser.cs:260 | RemoveEmptyEntries keeps no empty piece and only pieces of its input |
| Text.RemoveEmptySingle | SqlServerBrowser.cs:260 | a single piece is kept exactly when it is not empty |
| Text.RemoveEmptyAppend | SqlServerBrowser.cs:260 | dropping empty pieces distributes over concatenation, so every non-empty piece is kept, in order |
| Text.SplitTerminated | SqlServerBrowser.cs:259-261 | splitting records that each end in ";;" and dropping empty pieces recovers the records in order, for non-empty ";;"-free records |
| Text.Latin1RoundTrip | Messages.cs:79 | decoding undoes encoding for Latin-1 text |
| Text.Latin1Bijective | Messages.cs:79 | every decoded string is Latin-1 and encodes back to the same bytes |
| Numbers.ParseInt32 | SqlInstance.cs:115 | succeeds exactly on non-empty digit strings whose value is at most Int32.MaxValue, with that value. Otherwise FormatException or OverflowException |
| Numbers.ParseDecimalString | SqlInstance.cs:115 | the decimal text of every Int32 value parses back to it |
| Instances.ParseVersion | SqlInstance.cs:107 | Version.Parse fails with ArgumentException unless the text has 2 to 4 dot-separated parts. An absent build or revision is -1 exactly when that part is missing. Components are non-negative. Failures are ArgumentException, FormatException or OverflowException |
| Instances.ParseVersionString | SqlInstance.cs:107 | the text of every four-part version parses back to it |
| Instances.ParseVersionExamples | SqlInstance.cs:107 | "12.0.2000.80" gives 12.0.2000.80; "12.0" gives 12.0 with no build or revision; "12.x" gives FormatException |
| Instances.OnePartVersionRejected | SqlInstance.cs:107 | a version text without a dot is ArgumentException |
| Instances.ParseInt32Examples | SqlInstance.cs:115 | "1433" and others parse to their value; "x" is FormatException |
| Instances.SqlServerVersionsKeysDistinct | SqlInstance.cs:140-164 | no two table entries share a version, so building the dictionary does not throw |
| Instances.LookupFrom | SqlInstance.cs:78-80 | the dictionary lookup returns the name of a table entry whose key is exactly the version, or "Unknown" when no key is |
| Instances.FriendlyNameExact | SqlInstance.cs:78-80 | the lookup is "Unknown" exactly when no key equals the version, and otherwise the matching entry's name |
| Instances.FriendlyNameExamples | SqlInstance.cs:140-164 | 12.0.2000.80 is "SQL Server 2014 RTM" |
| Instances.ThreePartVersionUnknown | SqlInstance.cs:78-80 | the three-part 12.0.2000 matches no four-part key and is "Unknown" |
| Instances.UnlistedVersionUnknown | SqlInstance.cs:78-80 | 13.0.1601.5, absent from the table, is "Unknown" |
| Instances.SqlServerVersion | SqlInstance.cs:78-80 | fails, with ArgumentNullException, exactly when the version is null. Otherwise it gives the table name of the version or "Unknown" |
| Instances.VisitedFrom | SqlInstance.cs:90 | every cursor position the walk visits lies in the token list |
| Instances.KeyPositionsShape | SqlInstance.cs:90-135 | the walk starts at token 0. It visits only even positions, in increasing order. It moves 6 after a `bv` key and 2 after any other key, and stops once the cursor is past the end |
| Instances.NoBvEveryOtherToken | SqlInstance.cs:90 | without `bv`, keys are read at exactly positions 0, 2, 4, … |
| Instances.LastValueIsLastOccurrence | SqlInstance.cs:90-137 | a field is None exactly when its key never appears with a value after it. Otherwise it is the token after the key's last occurrence |
| Instances.ClusteredOnlyWhenYes | SqlInstance.cs:102-104 | IsClustered is true exactly when the last IsClustered key is followed by "Yes" |
| Instances.UnreadTokenIrrelevant | SqlInstance.cs:92-136 | changing a token that is neither a key nor the value of a value-reading key leaves the outcome unchanged |
| Instances.IgnoredKeyValueUnread | SqlInstance.cs:92-136 | the value after an unrecognised key (`via` among them) is never read |
| Instances.BvRecordUnread | SqlInstance.cs:132-135 | the five tokens after `bv` are never read |
| Instances.TruncatedValueFails | SqlInstance.cs:95-116 | a walk ending on a value-reading key with no token after it fails, with IndexOutOfRange unless an earlier key already failed |
| Instances.FirstFailureKinds | SqlInstance.cs:95-116 | a descriptor fails only with IndexOutOfRange, or with the Format, Overflow or Argument exception of a Version or tcp value |
| Instances.DescribeTokens | SqlInstance.cs:90-137 | the reference meaning of the constructor over its tokens: a failure is always one of those four exceptions |
| Instances.Describe | SqlInstance.cs:87-138 | the same for a whole descriptor segment, cut on ';' first |
| Instances.ShortBvRecordEndsWalk | SqlInstance.cs:132-135 | a `bv` with fewer than five tokens after it is the last key read, and it raises nothing |
| Instances.ShortBvRecordAccepted | SqlInstance.cs:132-135 | "bv;x" describes an instance with every field unset, with no exception |
| Instances.DescribeExample | SqlInstance.cs:87-138 | "ServerName;HOST1;InstanceName;SQLEXPRESS;IsClustered;No;Version;12.0.2000.80;tcp;1433" gives server HOST1, instance SQLEXPRESS, not clustered, version 12.0.2000.80, tcp 1433, and the other fields null |
| Instances.AssembleExtend | SqlInstance.cs:94-130 | one more key sets only the field of its case, to the value token; the ignored keys and `bv` change nothing |
| Instances.ApplyKey | SqlInstance.cs:92-136 | the switch throws exactly when its case does (a missing value token, an unparsable Version or tcp), with that exception. Otherwise it yields the record with the key's field set |
| Instances.Parse | SqlInstance.cs:82-138 | the constructor's loop gives exactly `Describe`: the first failing key's exception, or the record of each key's last value |
| Browser.SplitInstances | SqlServerBrowser.cs:260 | the reply text cut on ";;" with empty pieces dropped: every segment is non-empty and a piece of the split |
| Browser.ParseSegmentsInOrder | SqlServerBrowser.cs:259-266 | each descriptor up to the first one that throws yields its own instance, in order. The exception is the one of the descriptor right after them |
| Browser.ParseDescriptors | SqlServerBrowser.cs:263-266 | the inner loop yields exactly ParseSegments of the reply's descriptors |
| Browser.DatagramInstances | SqlServerBrowser.cs:259-266 | one datagram: a malformed SVR_RESP yields no instance and its own exception, so a datagram that raises nothing was well formed |
| Browser.DatagramInstancesInOrder | SqlServerBrowser.cs:259-266 | in a well-formed datagram each descriptor up to the first that throws yields its own instance, in order, and the exception is that of the next descriptor |
| Browser.Collect | SqlServerBrowser.cs:243-268 | the enumeration from the k-th receive on, run to its end: below the limit it makes at least one receive and never passes the limit. It ends at the limit only after exactly expectedClients receives |
| Browser.ReceiveReply | SqlServerBrowser.cs:249-266 | one Receive call and the decoding of its datagram give exactly `ReplyTo` of that receive's outcome: its socket error, or the SVR_RESP decoded and its descriptors parsed in order up to the first that throws |
| Browser.ProcessIncomingInstanceData | SqlServerBrowser.cs:243-268 | the receive loop gives exactly `Collect`: the instances yielded, how the enumeration ended, and the number of receives |
| Browser.CollectReceives | SqlServerBrowser.cs:247 | at most expectedClients receives, all of them when the loop runs to its limit. An early end is caused by the last receive |
| Browser.LaterReceivesIgnored | SqlServerBrowser.cs:247 | outcomes after the expectedClients-th receive never affect the replies the loop sees |
| Browser.CleanReplyStep | SqlServerBrowser.cs:259-266 | a reply that decodes and parses contributes its instances ahead of everything received later |
| Browser.CleanRepliesConcatenate | SqlServerBrowser.cs:247-267 | the instances of clean replies come out concatenated in arrival order, each reply's before the next receive |
| Browser.TimedOutPropagates | SqlServerBrowser.cs:250-257 | after clean replies, a TimedOut receive is not caught: the consumer gets the instances so far and then SocketException(TimedOut) |
| Browser.OtherSocketErrorEndsSilently | SqlServerBrowser.cs:250-257 | after clean replies, any other socket error ends the sequence with no exception |
| Browser.AllRepliesCollected | SqlServerBrowser.cs:247-267 | with expectedClients clean replies the loop yields every instance of every reply and ends at the limit |
| Browser.InstanceListReplyParsed | SqlServerBrowser.cs:259-261 | a reply listing non-empty ";;"-free Latin-1 descriptors, each followed by ";;", yields one instance per descriptor, in order |
| Browser.Single | SqlServerBrowser.cs:175 | Enumerable.Single over the run: the sole instance when exactly one is yielded and nothing is thrown. Two or more give "Sequence contains more than one element" whatever follows. None gives "Sequence contains no elements" |
| Browser.RenameNoElements | SqlServerBrowser.cs:177-180 | the catch clause: "Sequence contains no elements" never escapes. It becomes "Instance does not exist on target server", and every other outcome passes through unchanged |
| Browser.SingleReplyDecides | SqlServerBrowser.cs:173-180 | Single over a one-receive run, with the catch clause's renaming, equals `InstanceReply`. InstanceReply reads the reply directly: TimedOut escapes; another socket error or a reply with no descriptor means "does not exist"; one descriptor is the answer; a second descriptor that parses is Single's own exception |
| Browser.SingleOverDescriptors | SqlServerBrowser.cs:173-180 | for the descriptors of one well-formed reply, Single with the renaming gives what the first two descriptors decide |
| Browser.SingleDescriptorReply | SqlServerBrowser.cs:168-180 | a reply carrying one descriptor answers GetInstance with that descriptor's instance or its exception |
| Browser.GetInstances | SqlServerBrowser.cs:47-64 | broadcast enabled, the receive timeout set, no connect. The event log is exactly one CLNT_BCAST_EX to 255.255.255.255:1434 followed by the receives. The result is `Collect` with 1 to 255 receives |
| Browser.GetInstancesDefault | SqlServerBrowser.cs:76-79 | the same clauses as GetInstances, with the 3000 ms default timeout |
| Browser.GetInstancesOn | SqlServerBrowser.cs:91-109 | broadcast off, no connect. The event log is one CLNT_UCAST_EX to port 1434 of each address, in order, then only receives, so every send precedes the first receive. The result is `Collect` with 1 to 255 receives |
| Browser.GetInstancesOnDefault | SqlServerBrowser.cs:135-138 | the same clauses as GetInstancesOn, with the 3000 ms default timeout |
| Browser.GetInstance | SqlServerBrowser.cs:162-182 | an invalid name throws before the connect, with nothing sent or received. Otherwise the client connects to address:1434. The event log is one CLNT_UCAST_INST for the name, then one receive. The result is `InstanceReply` |
| Browser.GetInstanceDefault | SqlServerBrowser.cs:191-194 | the same clauses as GetInstance, with the 3000 ms default timeout |
| Browser.DacReply | SqlServerBrowser.cs:218-226 | a TimedOut receive means "Instance does not exist on target server, or the DAC is not available."; any other socket error escapes as SocketException; any port returned is below 65536. The port is decoded by the corrected decoder (see Findings) |
| Browser.DacReplyCorrection | SqlServerBrowser.cs:218-226 | the reply as the code reads it, with the as-written decoder, and DacReply succeed on the same outcomes and fail identically. On an accepted reply the code gives byte4·256 + 1 where DacReply gives byte4 + 256·byte5 |
| Browser.DacReplyRoundTrip | SqlServerBrowser.cs:217-222 | with the corrected decoder, a server announcing any port is understood, whatever it sends afterwards. The code as written reads the port-2700 announcement as 35841 |
| Browser.GetDacPort | SqlServerBrowser.cs:205-228 | an invalid name throws before the connect, with nothing sent or received. Otherwise the client connects. The event log is one CLNT_UCAST_DAC, then one receive. The result is `DacReply`: timeout renamed, other socket errors propagated, the reply decoded |
| Browser.GetDacPortDefault | SqlServerBrowser.cs:238-241 | the same clauses as GetDacPort, with the 3000 ms default timeout |

## Left out

- The UDP socket: construction, DontFragment, ExclusiveAddressUse, MulticastLoopback, disposal and wall-clock timeouts. These are I/O. Receives are read from a trace; an exhausted trace counts as a receive that timed out. The timeout value is recorded in `Session`, not acted on.
- Browser.GetDacPort: decodes the reply with the corrected decoder `Messages.ServerResponseDac`. The code at SqlServerBrowser.cs:221 calls the decoder as written, which returns byte4·256 + 1, so for the port-2700 reply it returns 35841. That reading is `Browser.DacReplyAsWritten`, and `Browser.DacReplyCorrection` relates the two (see Findings). The same holds for Browser.GetDacPortDefault and Browser.DacReply.
- Browser.GetInstance: records the connect and then the send addressed to the same endpoint. Whether the platform's UdpClient accepts an explicit endpoint on a connected client is socket behaviour and is not modelled.
- Browser.ProcessIncomingInstanceData: the C# iterator is run to its end in one call. A consumer that stops early sees a prefix of `instances`. Re-enumeration re-sends the request: each call of the model performs one send phase. `Single` reads the first two yields off the complete run, which is what the lazy Single observes, because any exception ends the run.
- The `params IPAddress[]` overloads of GetInstancesOn (SqlServerBrowser.cs:121-124, 149-152) only convert an array to a sequence. `Browser.GetInstancesOn` and `Browser.GetInstancesOnDefault` take a `seq<Address>` directly.
- Messages.InstanceNameBytes: Encoding.Default is modelled as Latin-1, one byte per character, with characters above 255 written as '?'. The "encodes to greater than 32 bytes" branch therefore cannot be taken. A multi-byte code page is not modelled.
- Numbers.ParseInt32: only plain digit strings are accepted. The sign, leading/trailing white space and culture rules of NumberStyles.Integer are not modelled; such text is a FormatException here.
- Instances.ParseVersion: components are ParseInt32 strings. A negative component is therefore a FormatException here (.NET gives ArgumentOutOfRangeException), and white space around components is not accepted.
- One .NET UTF-16 code unit is one Dafny `char`. Surrogate pairs are not treated specially.
- Null arguments (a null instance name, a null address list) are not modelled: Dafny values are never null. A null `Version` in SqlServerVersion is kept: it is `None` and throws ArgumentNullException.
- ViaInfo.cs, BanyanVinesInfo.cs and BanyanVinesParameters.cs are not part of this model. No code shown ever builds them; `via` and `bv` are handled as the walk handles them.

## Findings

| source | as written | input that shows it | evidently intended | confidence | as-written member | corrected member |
|---|---|---|---|---|---|---|
| Messages.cs:98 | returns (response[4] << 8) + response[3]: byte 3 is the PROTOCOLVERSION (always 1 after the header check), so the port is misread as byte4·256 + 1 | the DAC reply for port 2700, 05 06 00 01 8C 0A, decodes to 35841 | TCP_DAC_PORT little-endian in bytes 4 and 5 ([MC-SQLR] section 2.2.5): (response[5] << 8) + response[4] | not executed; high | Messages.DacAsWrittenMisreadsPort | Messages.ServerResponseDac |
