/** The SQL Server Resolution Protocol wire codec ([MC-SQLR] sections 2.2.1 to 2.2.5):
    the four client requests and the two shapes of server response. */
module Messages {
  import opened Wrappers
  import opened Errors
  import opened Text

  const SvrResp: byte := 0x05
  const MaxInstanceNameLength := 32

  const EmptyNameMessage := "Instance name cannot be empty"
  const NameTooLongMessage := "Instance name cannot be longer than 32 characters"
  const NameTooManyBytesMessage := "Instance name encodes to greater than 32 bytes"
  const InvalidResponseMessage := "Invalid SVR_RESP message"
  const InvalidDacResponseMessage := "Invalid SVR_RESP (DAC) message"

  // ---------------------------------------------------------------------------
  // Requests
  // ---------------------------------------------------------------------------

  /** CLNT_BCAST_EX (section 2.2.1). */
  function ClientBroadcastEx(): (datagram: seq<byte>)
    ensures datagram == [0x02]
  {
    [0x02]
  }

  /** CLNT_UCAST_EX (section 2.2.2). */
  function ClientUnicastEx(): (datagram: seq<byte>)
    ensures datagram == [0x03]
  {
    [0x03]
  }

  /** Validates an instance name and encodes it: a blank name is an
      ArgumentException; more than 32 characters, or more than 32 bytes once
      encoded, an ArgumentOutOfRangeException. */
  function InstanceNameBytes(instanceName: string): (r: Result<seq<byte>, Error>)
    ensures r.Success? <==> !IsWhiteSpaceOnly(instanceName) && |instanceName| <= MaxInstanceNameLength
    ensures r.Success? ==> r.value == EncodeLatin1(instanceName) && 0 < |r.value| <= MaxInstanceNameLength
    ensures IsWhiteSpaceOnly(instanceName) ==> r == Failure(ArgumentException(EmptyNameMessage))
    ensures !IsWhiteSpaceOnly(instanceName) && |instanceName| > MaxInstanceNameLength ==>
              r == Failure(ArgumentOutOfRangeException(NameTooLongMessage))
  {
    if IsWhiteSpaceOnly(instanceName) then
      Failure(ArgumentException(EmptyNameMessage))
    else if |instanceName| > MaxInstanceNameLength then
      Failure(ArgumentOutOfRangeException(NameTooLongMessage))
    else if |EncodeLatin1(instanceName)| > MaxInstanceNameLength then
      Failure(ArgumentOutOfRangeException(NameTooManyBytesMessage))
    else
      Success(EncodeLatin1(instanceName))
  }

  /** The encoded name of an accepted instance name decodes back to that name
      whenever the name is representable in the code page. */
  lemma InstanceNameBytesRoundTrip(instanceName: string)
    requires InstanceNameBytes(instanceName).Success? && IsLatin1(instanceName)
    ensures DecodeLatin1(InstanceNameBytes(instanceName).value) == instanceName
  {
    Latin1RoundTrip(instanceName);
  }

  /** The CLNT_UCAST_INST layout (section 2.2.3): 0x04, the name, 0x00. */
  function InstanceRequest(nameBytes: seq<byte>): seq<byte> {
    [0x04] + nameBytes + [0x00]
  }

  /** The CLNT_UCAST_DAC layout (section 2.2.4): 0x0F, protocol version 0x01, the name, 0x00. */
  function DacRequest(nameBytes: seq<byte>): seq<byte> {
    [0x0F, 0x01] + nameBytes + [0x00]
  }

  /** Array.Copy(source, 0, destination, offset, |source|). */
  method CopyInto(source: seq<byte>, destination: array<byte>, offset: nat)
    requires offset + |source| <= destination.Length
    modifies destination
    ensures destination[..] == old(destination[..offset]) + source + old(destination[offset + |source|..])
  {
    ghost var before := destination[..];
    var k := 0;
    while k < |source|
      invariant 0 <= k <= |source|
      invariant forall m :: 0 <= m < destination.Length && !(offset <= m < offset + k) ==> destination[m] == before[m]
      invariant forall m :: 0 <= m < k ==> destination[offset + m] == source[m]
    {
      destination[offset + k] := source[k];
      k := k + 1;
    }
    assert destination[..] == before[..offset] + source + before[offset + |source|..];
  }

  /** ClientUnicastInstance: builds CLNT_UCAST_INST in a fresh array. */
  method ClientUnicastInstance(instanceName: string) returns (r: Result<seq<byte>, Error>)
    ensures InstanceNameBytes(instanceName).Failure? ==> r == Failure(InstanceNameBytes(instanceName).error)
    ensures InstanceNameBytes(instanceName).Success? ==>
              r == Success(InstanceRequest(InstanceNameBytes(instanceName).value))
    ensures r.Success? ==>
              var nameBytes := InstanceNameBytes(instanceName).value;
              && |r.value| == |nameBytes| + 2 <= MaxInstanceNameLength + 2
              && r.value[0] == 0x04 && r.value[|r.value| - 1] == 0x00
              && r.value[1..|r.value| - 1] == nameBytes
  {
    var nameBytes :- InstanceNameBytes(instanceName);
    var returnBytes := new byte[2 + |nameBytes|];
    returnBytes[0] := 0x04;
    returnBytes[returnBytes.Length - 1] := 0x00;
    assert returnBytes[..1] == [0x04] && returnBytes[1 + |nameBytes|..] == [0x00];
    CopyInto(nameBytes, returnBytes, 1);
    r := Success(returnBytes[..]);
  }

  /** ClientUnicastDac: builds CLNT_UCAST_DAC in a fresh array. */
  method ClientUnicastDac(instanceName: string) returns (r: Result<seq<byte>, Error>)
    ensures InstanceNameBytes(instanceName).Failure? ==> r == Failure(InstanceNameBytes(instanceName).error)
    ensures InstanceNameBytes(instanceName).Success? ==>
              r == Success(DacRequest(InstanceNameBytes(instanceName).value))
    ensures r.Success? ==>
              var nameBytes := InstanceNameBytes(instanceName).value;
              && |r.value| == |nameBytes| + 3 <= MaxInstanceNameLength + 3
              && r.value[0] == 0x0F && r.value[1] == 0x01 && r.value[|r.value| - 1] == 0x00
              && r.value[2..|r.value| - 1] == nameBytes
  {
    var nameBytes :- InstanceNameBytes(instanceName);
    var returnBytes := new byte[3 + |nameBytes|];
    returnBytes[0] := 0x0F;
    returnBytes[1] := 0x01;
    returnBytes[returnBytes.Length - 1] := 0x00;
    assert returnBytes[..2] == [0x0F, 0x01] && returnBytes[2 + |nameBytes|..] == [0x00];
    CopyInto(nameBytes, returnBytes, 2);
    r := Success(returnBytes[..]);
  }

  /** The four requests as the server tells them apart. */
  datatype Request =
    | BroadcastEx
    | UnicastEx
    | UnicastInstance(nameBytes: seq<byte>)
    | UnicastDac(nameBytes: seq<byte>)

  function EncodeRequest(request: Request): seq<byte> {
    match request
    case BroadcastEx => ClientBroadcastEx()
    case UnicastEx => ClientUnicastEx()
    case UnicastInstance(nameBytes) => InstanceRequest(nameBytes)
    case UnicastDac(nameBytes) => DacRequest(nameBytes)
  }

  /** The receiving side of a request: dispatch on the first byte, strip the
      fixed header and the 0x00 terminator. */
  function DecodeRequest(datagram: seq<byte>): Option<Request> {
    if datagram == [0x02] then Some(BroadcastEx)
    else if datagram == [0x03] then Some(UnicastEx)
    else if |datagram| >= 2 && datagram[0] == 0x04 && datagram[|datagram| - 1] == 0x00 then
      Some(UnicastInstance(datagram[1..|datagram| - 1]))
    else if |datagram| >= 3 && datagram[0] == 0x0F && datagram[1] == 0x01 && datagram[|datagram| - 1] == 0x00 then
      Some(UnicastDac(datagram[2..|datagram| - 1]))
    else None
  }

  /** Every request decodes to itself: the header and terminator are stripped
      and exactly the name bytes remain. */
  lemma RequestRoundTrip(request: Request)
    ensures DecodeRequest(EncodeRequest(request)) == Some(request)
  {
    match request
    case UnicastInstance(nameBytes) =>
      var d := InstanceRequest(nameBytes);
      assert d[0] == 0x04 && |d| >= 2 && d[|d| - 1] == 0x00;
      assert d != [0x02] && d != [0x03];
      assert d[1..|d| - 1] == nameBytes;
    case UnicastDac(nameBytes) =>
      var d := DacRequest(nameBytes);
      assert d[0] == 0x0F && d[1] == 0x01 && |d| >= 3 && d[|d| - 1] == 0x00;
      assert d != [0x02] && d != [0x03];
      assert d[2..|d| - 1] == nameBytes;
    case _ =>
  }

  /** Conversely, whatever decodes as a request is exactly that request's encoding. */
  lemma DecodedRequestIsEncoding(datagram: seq<byte>)
    requires DecodeRequest(datagram).Some?
    ensures EncodeRequest(DecodeRequest(datagram).value) == datagram
  {
    match DecodeRequest(datagram).value
    case UnicastInstance(nameBytes) =>
      assert datagram == [datagram[0]] + datagram[1..|datagram| - 1] + [datagram[|datagram| - 1]];
    case UnicastDac(nameBytes) =>
      assert datagram == [datagram[0], datagram[1]] + datagram[2..|datagram| - 1] + [datagram[|datagram| - 1]];
    case _ =>
  }

  // ---------------------------------------------------------------------------
  // Responses
  // ---------------------------------------------------------------------------

  /** The little-endian 16-bit RESP_SIZE field at bytes 1 and 2. */
  function ResponseSize(response: seq<byte>): nat
    requires |response| >= 3
  {
    (response[2] as int) * 0x100 + response[1] as int
  }

  /** ServerResponse (SVR_RESP, section 2.2.5): indexing an empty or too short
      buffer throws IndexOutOfRangeException; a first byte other than 0x05 is
      InvalidDataException; a declared size past the end of the buffer makes
      GetString throw ArgumentOutOfRangeException. Bytes past the payload are ignored. */
  function ServerResponse(response: seq<byte>): (r: Result<string, Error>)
    ensures r.Success? <==> |response| >= 3 && response[0] == SvrResp && 3 + ResponseSize(response) <= |response|
    ensures |response| > 0 && response[0] != SvrResp ==> r == Failure(InvalidDataException(InvalidResponseMessage))
    ensures r.Success? ==> EncodeLatin1(r.value) == response[3..3 + ResponseSize(response)]
  {
    if |response| == 0 then Failure(IndexOutOfRangeException)
    else if response[0] != SvrResp then Failure(InvalidDataException(InvalidResponseMessage))
    else if |response| < 3 then Failure(IndexOutOfRangeException)
    else if 3 + ResponseSize(response) > |response| then
      Failure(ArgumentOutOfRangeException("count"))
    else
      var payload := response[3..3 + ResponseSize(response)];
      Latin1Bijective(payload);
      Success(DecodeLatin1(payload))
  }

  /** An SVR_RESP as a server builds it for a payload of at most 65535 bytes. */
  function EncodeServerResponse(payload: seq<byte>): seq<byte>
    requires |payload| < 0x1_0000
  {
    [SvrResp, |payload| % 0x100, |payload| / 0x100] + payload
  }

  /** Decoding an encoded response gives back the payload text, whatever follows it. */
  lemma ServerResponseRoundTrip(text: string, trailing: seq<byte>)
    requires IsLatin1(text) && |text| < 0x1_0000
    ensures ServerResponse(EncodeServerResponse(EncodeLatin1(text)) + trailing) == Success(text)
  {
    var payload := EncodeLatin1(text);
    var response := EncodeServerResponse(payload) + trailing;
    assert ResponseSize(response) == |payload|;
    assert response[3..3 + |payload|] == payload;
    Latin1RoundTrip(text);
  }

  /** A buffer that declares more payload than it holds is rejected rather than truncated. */
  lemma ShortResponseRejected(response: seq<byte>)
    requires |response| >= 3 && response[0] == SvrResp && |response| < 3 + ResponseSize(response)
    ensures ServerResponse(response) == Failure(ArgumentOutOfRangeException("count"))
  {
  }

  /** The worked example 05 04 00 'T' 'E' 'S' 'T'. */
  lemma ServerResponseExample()
    ensures ServerResponse([0x05, 0x04, 0x00, 0x54, 0x45, 0x53, 0x54]) == Success("TEST")
  {
    assert [0x05, 0x04, 0x00, 0x54, 0x45, 0x53, 0x54][3..7] == [0x54, 0x45, 0x53, 0x54];
    assert DecodeLatin1([0x54, 0x45, 0x53, 0x54]) == "TEST";
  }

  /** The fixed header of the DAC SVR_RESP: 0x05, RESP_SIZE 6 little-endian, PROTOCOLVERSION 1. */
  predicate IsDacResponse(response: seq<byte>) {
    |response| == 6 && response[0] == SvrResp && response[1] == 0x06 && response[2] == 0x00 && response[3] == 0x01
  }

  /** ServerResponseDac as the source computes it: (response[4] << 8) + response[3].
      Under the header check byte 3 is always 1, so the result is response[4] * 256 + 1. */
  function ServerResponseDacAsWritten(response: seq<byte>): (r: Result<int, Error>)
    ensures r.Success? <==> IsDacResponse(response)
    ensures r.Failure? ==> r.error == InvalidDataException(InvalidDacResponseMessage)
    ensures r.Success? ==> r.value == (response[4] as int) * 0x100 + 1 && 1 <= r.value <= 65281
  {
    if !IsDacResponse(response) then Failure(InvalidDataException(InvalidDacResponseMessage))
    else Success((response[4] as int) * 0x100 + response[3] as int)
  }

  /** ServerResponseDac with TCP_DAC_PORT read where section 2.2.5 puts it:
      little-endian in bytes 4 and 5. */
  function ServerResponseDac(response: seq<byte>): (r: Result<int, Error>)
    ensures r.Success? <==> IsDacResponse(response)
    ensures r.Failure? ==> r.error == InvalidDataException(InvalidDacResponseMessage)
    ensures r.Success? ==> 0 <= r.value < 0x1_0000
  {
    if !IsDacResponse(response) then Failure(InvalidDataException(InvalidDacResponseMessage))
    else Success((response[5] as int) * 0x100 + response[4] as int)
  }

  /** The DAC SVR_RESP a server sends for `port`. */
  function DacResponse(port: nat): seq<byte>
    requires port < 0x1_0000
  {
    [SvrResp, 0x06, 0x00, 0x01, port % 0x100, port / 0x100]
  }

  /** The corrected decoder recovers every port the server can send ... */
  lemma DacResponseRoundTrip(port: nat)
    requires port < 0x1_0000
    ensures ServerResponseDac(DacResponse(port)) == Success(port)
  {
  }

  /** ... and every accepted buffer is the response for the port decoded from it. */
  lemma DacResponseDecodedIsEncoding(response: seq<byte>)
    requires ServerResponseDac(response).Success?
    ensures DacResponse(ServerResponseDac(response).value) == response
  {
    var port := ServerResponseDac(response).value;
    assert port % 0x100 == response[4] && port / 0x100 == response[5];
  }

  /** The source's decoder misreads a server announcing DAC port 2700 (0x0A8C)
      as port 35841, because it reads the protocol-version byte as the low byte. */
  lemma DacAsWrittenMisreadsPort()
    ensures DacResponse(2700) == [0x05, 0x06, 0x00, 0x01, 0x8C, 0x0A]
    ensures ServerResponseDacAsWritten(DacResponse(2700)) == Success(35841)
    ensures ServerResponseDac(DacResponse(2700)) == Success(2700)
  {
  }
}
