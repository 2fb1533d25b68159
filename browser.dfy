/** The Browser class: the request/receive sequencing of a discovery or lookup
    session. The UDP socket is abstracted: what a session sends and how it is
    configured is returned as a `Session` record, and what it receives is read from a
    trace of receive outcomes, one per Receive call. */
module Browser {
  import opened Wrappers
  import opened Errors
  import opened Text
  import opened Messages
  import opened Instances

  const SqlServerBrowserPort := 1434
  const DefaultTimeout := 3000
  /** expectedClients of both discovery paths. */
  const DiscoveryReplyLimit := 255

  const NoElementsMessage := "Sequence contains no elements"
  const MoreThanOneMessage := "Sequence contains more than one element"
  const NoInstanceMessage := "Instance does not exist on target server"
  const NoDacMessage := "Instance does not exist on target server, or the DAC is not available."

  // ---------------------------------------------------------------------------
  // The abstract transport
  // ---------------------------------------------------------------------------

  datatype Address = BroadcastAddress | HostAddress(bytes: seq<byte>)

  datatype Endpoint = Endpoint(address: Address, port: int)

  datatype Packet = Packet(datagram: seq<byte>, to: Endpoint)

  /** What one Receive call gives: a datagram, or a SocketException with its code. */
  datatype ReceiveOutcome = Datagram(bytes: seq<byte>) | Failed(code: SocketError)

  /** One use of the socket: a datagram sent, or a Receive call made. */
  datatype Event = Sent(packet: Packet) | Received

  /** `n` Receive calls in a row. */
  function Receives(n: nat): (events: seq<Event>)
    ensures |events| == n && forall k :: 0 <= k < n ==> events[k] == Received
  {
    seq(n, _ => Received)
  }

  /** The observable use of the socket: its settings, and the sends and
      receives in the order they happen. */
  datatype Session = Session(receiveTimeout: int, broadcast: bool, connectedTo: Option<Endpoint>,
                             events: seq<Event>)

  /** The outcome of the k-th Receive: once the trace is exhausted no datagram
      arrives within the timeout. */
  function ReceiveAt(trace: seq<ReceiveOutcome>, k: nat): ReceiveOutcome {
    if k < |trace| then trace[k] else Failed(TimedOut)
  }

  function BrowserEndpoint(address: Address): Endpoint {
    Endpoint(address, SqlServerBrowserPort)
  }

  // ---------------------------------------------------------------------------
  // ProcessIncomingInstanceData, specified
  // ---------------------------------------------------------------------------

  /** String.Split(new[] {";;"}, RemoveEmptyEntries). */
  function SplitInstances(text: string): (segments: seq<string>)
    ensures forall k :: 0 <= k < |segments| ==> segments[k] != "" && segments[k] in Split(text, ";;")
  {
    RemoveEmpty(Split(text, ";;"))
  }

  /** The instances parsed from a datagram, and the exception that stopped it. */
  datatype Parsed = Parsed(instances: seq<SqlInstance>, failure: Option<Error>)

  /** Select(SqlInstance.Parse) enumerated: in order, up to the first segment that throws. */
  function ParseSegments(segments: seq<string>): Parsed
    decreases |segments|
  {
    if |segments| == 0 then Parsed([], None)
    else match Describe(segments[0])
      case Failure(e) => Parsed([], Some(e))
      case Success(instance) =>
        var rest := ParseSegments(segments[1..]);
        Parsed([instance] + rest.instances, rest.failure)
  }

  /** Each segment up to the first failing one yields its own instance, in
      order; the failure, if any, is that of the segment right after them. */
  lemma {:induction false} ParseSegmentsInOrder(segments: seq<string>)
    ensures var p := ParseSegments(segments);
            && (p.failure.None? ==> |p.instances| == |segments|)
            && (p.failure.Some? ==> |p.instances| < |segments| && Describe(segments[|p.instances|]) == Failure(p.failure.value))
            && (forall k :: 0 <= k < |p.instances| ==> k < |segments| && Describe(segments[k]) == Success(p.instances[k]))
    decreases |segments|
  {
    if |segments| > 0 && Describe(segments[0]).Success? {
      var rest := segments[1..];
      ParseSegmentsInOrder(rest);
      var p := ParseSegments(segments);
      forall k | 0 <= k < |p.instances|
        ensures k < |segments| && Describe(segments[k]) == Success(p.instances[k])
      {
        if k > 0 {
          assert segments[k] == rest[k - 1];
        }
      }
    }
  }

  /** One datagram: decode the SVR_RESP, split it into descriptors, parse each. */
  function DatagramInstances(bytes: seq<byte>): (p: Parsed)
    ensures ServerResponse(bytes).Failure? ==> p == Parsed([], Some(ServerResponse(bytes).error))
    ensures p.failure.None? ==> ServerResponse(bytes).Success?
  {
    match ServerResponse(bytes)
    case Failure(e) => Parsed([], Some(e))
    case Success(text) => ParseSegments(SplitInstances(text))
  }

  /** A well-formed datagram yields the instance of each of its descriptors in
      order, up to the first that throws, whose exception ends it. */
  lemma DatagramInstancesInOrder(bytes: seq<byte>)
    requires ServerResponse(bytes).Success?
    ensures var segments := SplitInstances(ServerResponse(bytes).value);
            var p := DatagramInstances(bytes);
            && (p.failure.None? ==> |p.instances| == |segments|)
            && (p.failure.Some? ==> |p.instances| < |segments| && Describe(segments[|p.instances|]) == Failure(p.failure.value))
            && (forall k :: 0 <= k < |p.instances| ==> Describe(segments[k]) == Success(p.instances[k]))
  {
    ParseSegmentsInOrder(SplitInstances(ServerResponse(bytes).value));
  }

  /** What one Receive call amounts to for the loop: a parsed datagram, or a socket error. */
  datatype Reply = Replied(parsed: Parsed) | ReceiveError(code: SocketError)

  function ReplyTo(outcome: ReceiveOutcome): Reply {
    match outcome
    case Failed(code) => ReceiveError(code)
    case Datagram(bytes) => Replied(DatagramInstances(bytes))
  }

  /** The replies to the first expectedClients receives of a trace. */
  function Replies(trace: seq<ReceiveOutcome>, expectedClients: nat): (r: seq<Reply>)
    ensures |r| == expectedClients
    ensures forall k :: 0 <= k < expectedClients ==> r[k] == ReplyTo(ReceiveAt(trace, k))
  {
    seq(expectedClients, k requires 0 <= k < expectedClients => ReplyTo(ReceiveAt(trace, k)))
  }

  /** How the enumeration ended. */
  datatype Ending =
    | ReplyLimitReached          // expectedClients receives were made
    | ReceiveFailed(code: SocketError)   // yield break on a socket error other than TimedOut
    | Threw(error: Error)        // an exception escaped to the consumer

  /** Everything yielded, how the enumeration ended, and the Receive calls made. */
  datatype Collected = Collected(instances: seq<SqlInstance>, ending: Ending, receives: nat)

  /** The enumeration from the k-th receive on, run to its end; there are as
      many replies as expectedClients. */
  function Collect(replies: seq<Reply>, k: nat): (c: Collected)
    ensures k < |replies| ==> k < c.receives <= |replies|
    ensures c.ending == ReplyLimitReached ==> c.receives == if k < |replies| then |replies| else k
    decreases |replies| - k
  {
    if k >= |replies| then Collected([], ReplyLimitReached, k)
    else match replies[k]
      case ReceiveError(code) =>
        if code == TimedOut then Collected([], Threw(SocketException(TimedOut)), k + 1)
        else Collected([], ReceiveFailed(code), k + 1)
      case Replied(parsed) =>
        if parsed.failure.Some? then Collected(parsed.instances, Threw(parsed.failure.value), k + 1)
        else
          var rest := Collect(replies, k + 1);
          Collected(parsed.instances + rest.instances, rest.ending, rest.receives)
  }

  // ---------------------------------------------------------------------------
  // ProcessIncomingInstanceData, the loop
  // ---------------------------------------------------------------------------

  /** The inner foreach over one datagram's descriptors: parse each in turn,
      stopping at the first that throws. */
  method ParseDescriptors(segments: seq<string>) returns (instances: seq<SqlInstance>, failure: Option<Error>)
    ensures Parsed(instances, failure) == ParseSegments(segments)
  {
    instances := [];
    var j := 0;
    while j < |segments|
      invariant j <= |segments|
      invariant ParseSegments(segments) == Parsed(instances + ParseSegments(segments[j..]).instances,
                                                  ParseSegments(segments[j..]).failure)
      decreases |segments| - j
    {
      var parsed := Parse(segments[j]);
      assert segments[j..][1..] == segments[j + 1..];
      if parsed.Failure? {
        assert instances + [] == instances;
        return instances, Some(parsed.error);
      }
      instances := instances + [parsed.value];
      j := j + 1;
    }
    assert segments[j..] == [];
    assert instances + [] == instances;
    failure := None;
  }

  /** One Receive call and the decoding of what it brought: the socket error, or
      the SVR_RESP decoded and its descriptors parsed by the inner loop. */
  method ReceiveReply(trace: seq<ReceiveOutcome>, k: nat) returns (reply: Reply)
    ensures reply == ReplyTo(ReceiveAt(trace, k))
  {
    var outcome := ReceiveAt(trace, k);
    if outcome.Failed? {
      return ReceiveError(outcome.code);
    }
    var text := ServerResponse(outcome.bytes);
    if text.Failure? {
      return Replied(Parsed([], Some(text.error)));
    }
    var instances, failure := ParseDescriptors(SplitInstances(text.value));
    reply := Replied(Parsed(instances, failure));
  }

  /** The counted receive loop, with the inner loop over a datagram's descriptors;
      the enumeration is run to its end. */
  method ProcessIncomingInstanceData(trace: seq<ReceiveOutcome>, expectedClients: nat)
    returns (instances: seq<SqlInstance>, ending: Ending, receives: nat)
    ensures Collected(instances, ending, receives) == Collect(Replies(trace, expectedClients), 0)
  {
    ghost var replies := Replies(trace, expectedClients);
    instances := [];
    var i: nat := 0;
    while i < expectedClients
      invariant i <= expectedClients
      invariant Collect(replies, 0) == Prepend(instances, Collect(replies, i))
      decreases expectedClients - i
    {
      var reply := ReceiveReply(trace, i);
      assert reply == replies[i];
      if reply.ReceiveError? {
        assert instances + [] == instances;
        if reply.code == TimedOut {
          return instances, Threw(SocketException(TimedOut)), i + 1;
        }
        return instances, ReceiveFailed(reply.code), i + 1;
      }
      if reply.parsed.failure.Some? {
        instances := instances + reply.parsed.instances;
        return instances, Threw(reply.parsed.failure.value), i + 1;
      }
      CleanReplyStep(replies, i);
      ConcatAssociative(instances, reply.parsed.instances, Collect(replies, i + 1).instances);
      instances := instances + reply.parsed.instances;
      i := i + 1;
    }
    assert instances + [] == instances;
    return instances, ReplyLimitReached, i;
  }

  // ---------------------------------------------------------------------------
  // Properties of the receive loop
  // ---------------------------------------------------------------------------

  /** A reply that was decoded and parsed without an exception. */
  predicate CleanReply(reply: Reply) {
    reply.Replied? && reply.parsed.failure.None?
  }

  /** `front` yielded ahead of the rest of an enumeration. */
  function Prepend(front: seq<SqlInstance>, c: Collected): Collected {
    Collected(front + c.instances, c.ending, c.receives)
  }

  lemma ConcatAssociative(a: seq<SqlInstance>, b: seq<SqlInstance>, c: seq<SqlInstance>)
    ensures a + (b + c) == (a + b) + c
  {
  }

  /** A clean reply contributes its instances and the loop goes on. */
  lemma CleanReplyStep(replies: seq<Reply>, k: nat)
    requires k < |replies| && CleanReply(replies[k])
    ensures Collect(replies, k) == Prepend(replies[k].parsed.instances, Collect(replies, k + 1))
  {
  }

  /** A receive that fails, or a reply that does not decode and parse, ends the loop. */
  lemma UncleanReplyEnds(replies: seq<Reply>, k: nat)
    requires k < |replies| && !CleanReply(replies[k])
    ensures Collect(replies, k).receives == k + 1
    ensures Collect(replies, k).ending != ReplyLimitReached
  {
  }

  /** The loop makes at most expectedClients receives, all of them when it runs
      to the limit and at least one from wherever it stands below the limit. */
  lemma {:induction false} CollectReceives(replies: seq<Reply>, k: nat)
    requires k <= |replies|
    ensures var c := Collect(replies, k);
            c.receives <= |replies|
            && (k < |replies| ==> k < c.receives)
            && (c.ending == ReplyLimitReached ==> c.receives == |replies|)
            && (c.ending != ReplyLimitReached ==> 0 < c.receives && !CleanReply(replies[c.receives - 1]))
    decreases |replies| - k
  {
    if k < |replies| {
      if CleanReply(replies[k]) {
        CollectReceives(replies, k + 1);
        CleanReplyStep(replies, k);
      } else {
        UncleanReplyEnds(replies, k);
      }
    }
  }

  /** Outcomes past the expectedClients-th receive are never looked at. */
  lemma LaterReceivesIgnored(trace: seq<ReceiveOutcome>, later: seq<ReceiveOutcome>, expectedClients: nat)
    requires |trace| >= expectedClients
    ensures Replies(trace + later, expectedClients) == Replies(trace, expectedClients)
  {
    forall k | 0 <= k < expectedClients
      ensures ReceiveAt(trace + later, k) == ReceiveAt(trace, k)
    {
      assert (trace + later)[k] == trace[k];
    }
  }

  /** The instances of the first k replies, in arrival order. */
  function InstancesBefore(replies: seq<Reply>, k: nat): seq<SqlInstance>
    requires k <= |replies|
    decreases k
  {
    if k == 0 then []
    else
      var reply := replies[k - 1];
      InstancesBefore(replies, k - 1) + (if reply.Replied? then reply.parsed.instances else [])
  }

  /** All instances of one reply are yielded before the next receive, and the
      replies' instances are concatenated in arrival order. */
  lemma {:induction false} CleanRepliesConcatenate(replies: seq<Reply>, k: nat)
    requires k <= |replies|
    requires forall j :: 0 <= j < k ==> CleanReply(replies[j])
    ensures Collect(replies, 0) == Prepend(InstancesBefore(replies, k), Collect(replies, k))
    decreases k
  {
    if k == 0 {
      assert [] + Collect(replies, 0).instances == Collect(replies, 0).instances;
    } else {
      CleanRepliesConcatenate(replies, k - 1);
      CleanReplyStep(replies, k - 1);
      var head := replies[k - 1].parsed.instances;
      assert InstancesBefore(replies, k) == InstancesBefore(replies, k - 1) + head;
      ConcatAssociative(InstancesBefore(replies, k - 1), head, Collect(replies, k).instances);
    }
  }

  /** A TimedOut receive after clean replies is not caught: the consumer gets the
      instances so far and then the SocketException. */
  lemma TimedOutPropagates(replies: seq<Reply>, k: nat)
    requires k < |replies| && replies[k] == ReceiveError(TimedOut)
    requires forall j :: 0 <= j < k ==> CleanReply(replies[j])
    ensures Collect(replies, 0) == Collected(InstancesBefore(replies, k), Threw(SocketException(TimedOut)), k + 1)
  {
    CleanRepliesConcatenate(replies, k);
    assert InstancesBefore(replies, k) + [] == InstancesBefore(replies, k);
  }

  /** Any other socket error after clean replies ends the sequence silently. */
  lemma OtherSocketErrorEndsSilently(replies: seq<Reply>, k: nat, code: SocketError)
    requires k < |replies| && replies[k] == ReceiveError(code) && code != TimedOut
    requires forall j :: 0 <= j < k ==> CleanReply(replies[j])
    ensures Collect(replies, 0) == Collected(InstancesBefore(replies, k), ReceiveFailed(code), k + 1)
  {
    CleanRepliesConcatenate(replies, k);
    assert InstancesBefore(replies, k) + [] == InstancesBefore(replies, k);
  }

  /** With expectedClients clean replies every instance of every reply is yielded. */
  lemma AllRepliesCollected(replies: seq<Reply>)
    requires forall j :: 0 <= j < |replies| ==> CleanReply(replies[j])
    ensures Collect(replies, 0) == Collected(InstancesBefore(replies, |replies|), ReplyLimitReached, |replies|)
  {
    CleanRepliesConcatenate(replies, |replies|);
    assert InstancesBefore(replies, |replies|) + [] == InstancesBefore(replies, |replies|);
  }

  /** A reply listing a server's descriptors, each followed by `;;`. */
  function InstanceListReply(descriptors: seq<string>): seq<byte>
    requires |Terminated(descriptors, ";;")| < 0x1_0000
  {
    EncodeServerResponse(EncodeLatin1(Terminated(descriptors, ";;")))
  }

  /** A reply built from non-empty `;;`-free Latin-1 descriptors is parsed back
      into one instance per descriptor, in order. */
  lemma InstanceListReplyParsed(descriptors: seq<string>)
    requires |Terminated(descriptors, ";;")| < 0x1_0000 && IsLatin1(Terminated(descriptors, ";;"))
    requires forall k :: 0 <= k < |descriptors| ==> descriptors[k] != "" && Clean(descriptors[k], ";;")
    ensures DatagramInstances(InstanceListReply(descriptors)) == ParseSegments(descriptors)
  {
    var text := Terminated(descriptors, ";;");
    ServerResponseRoundTrip(text, []);
    assert InstanceListReply(descriptors) + [] == InstanceListReply(descriptors);
    SplitTerminated(descriptors, ";;");
  }

  // ---------------------------------------------------------------------------
  // Single() in GetInstance
  // ---------------------------------------------------------------------------

  /** Enumerable.Single over the lazily produced sequence. It stops after the
      second element, so a later exception is never reached; with at most one
      element the end of the enumeration decides. */
  function Single(c: Collected): (r: Result<SqlInstance, Error>)
    ensures |c.instances| >= 2 ==> r == Failure(InvalidOperationException(MoreThanOneMessage))
    ensures r.Success? <==> |c.instances| == 1 && !c.ending.Threw?
    ensures r.Success? ==> r.value == c.instances[0]
    ensures |c.instances| == 0 && !c.ending.Threw? ==> r == Failure(InvalidOperationException(NoElementsMessage))
  {
    if |c.instances| >= 2 then Failure(InvalidOperationException(MoreThanOneMessage))
    else if c.ending.Threw? then Failure(c.ending.error)
    else if |c.instances| == 1 then Success(c.instances[0])
    else Failure(InvalidOperationException(NoElementsMessage))
  }

  /** The catch clause of GetInstance: only the empty-sequence exception is renamed. */
  function RenameNoElements(r: Result<SqlInstance, Error>): (out: Result<SqlInstance, Error>)
    ensures out != Failure(InvalidOperationException(NoElementsMessage))
    ensures out == Failure(InvalidOperationException(NoInstanceMessage)) <==>
              r == Failure(InvalidOperationException(NoElementsMessage)) || r == Failure(InvalidOperationException(NoInstanceMessage))
    ensures r != Failure(InvalidOperationException(NoElementsMessage)) ==> out == r
  {
    if r == Failure(InvalidOperationException(NoElementsMessage)) then Failure(InvalidOperationException(NoInstanceMessage))
    else r
  }

  /** What GetInstance returns for its one reply, read directly off the reply:
      a TimedOut escapes, any other socket error or a reply with no descriptor
      means the instance does not exist, one descriptor is the answer, and a
      second descriptor that parses is Single's own exception. */
  function InstanceReply(trace: seq<ReceiveOutcome>): Result<SqlInstance, Error> {
    match ReceiveAt(trace, 0)
    case Failed(code) =>
      if code == TimedOut then Failure(SocketException(TimedOut))
      else Failure(InvalidOperationException(NoInstanceMessage))
    case Datagram(bytes) =>
      match ServerResponse(bytes)
      case Failure(e) => Failure(e)
      case Success(text) => DescriptorsAnswer(SplitInstances(text))
  }

  /** The answer the descriptors of a well-formed reply give, read off the first two. */
  function DescriptorsAnswer(segments: seq<string>): Result<SqlInstance, Error> {
    if |segments| == 0 then Failure(InvalidOperationException(NoInstanceMessage))
    else match Describe(segments[0])
      case Failure(e) => Failure(e)
      case Success(first) =>
        if |segments| == 1 then Success(first)
        else match Describe(segments[1])
          case Failure(e) => Failure(e)
          case Success(_) => Failure(InvalidOperationException(MoreThanOneMessage))
  }

  /** The run of a one-receive loop whose one reply parsed as `p`. */
  function OneReplyRun(p: Parsed): Collected {
    Collected(p.instances, if p.failure.Some? then Threw(p.failure.value) else ReplyLimitReached, 1)
  }

  /** Single, with the catch clause, over the descriptors of one well-formed reply. */
  lemma SingleOverDescriptors(segments: seq<string>)
    ensures RenameNoElements(Single(OneReplyRun(ParseSegments(segments)))) == DescriptorsAnswer(segments)
  {
    var parsed := ParseSegments(segments);
    if |segments| >= 1 && Describe(segments[0]).Success? {
      if |segments| >= 2 && Describe(segments[1]).Success? {
        ParseSegmentsAtLeastTwo(segments);
      } else if |segments| >= 2 {
        assert segments[1..][0] == segments[1];
        assert |parsed.instances| == 1;
      }
    }
  }

  lemma ParseSegmentsAtLeastTwo(segments: seq<string>)
    requires |segments| >= 2 && Describe(segments[0]).Success? && Describe(segments[1]).Success?
    ensures |ParseSegments(segments).instances| >= 2
  {
    assert segments[1..][0] == segments[1];
  }

  /** Single over the run of ProcessIncomingInstanceData(client, 1), with the catch
      clause, gives what the reply determines. */
  lemma {:induction false} SingleReplyDecides(trace: seq<ReceiveOutcome>)
    ensures RenameNoElements(Single(Collect(Replies(trace, 1), 0))) == InstanceReply(trace)
  {
    var replies := Replies(trace, 1);
    assert Collect(replies, 1) == Collected([], ReplyLimitReached, 1);
    assert replies[0] == ReplyTo(ReceiveAt(trace, 0));
    if ReceiveAt(trace, 0).Datagram? {
      var parsed := DatagramInstances(ReceiveAt(trace, 0).bytes);
      assert parsed.instances + [] == parsed.instances;
      assert Collect(replies, 0) == OneReplyRun(parsed);
      var text := ServerResponse(ReceiveAt(trace, 0).bytes);
      if text.Success? {
        SingleOverDescriptors(SplitInstances(text.value));
      }
    }
  }

  /** A reply carrying exactly one descriptor answers GetInstance with that
      descriptor's instance, or with its parse exception. */
  lemma SingleDescriptorReply(descriptor: string, later: seq<ReceiveOutcome>)
    requires descriptor != "" && Clean(descriptor, ";;")
    requires |descriptor| + 2 < 0x1_0000 && IsLatin1(descriptor)
    ensures Terminated([descriptor], ";;") == descriptor + ";;"
    ensures InstanceReply([Datagram(InstanceListReply([descriptor]))] + later) == Describe(descriptor)
  {
    var text := Terminated([descriptor], ";;");
    assert [descriptor][1..] == [];
    assert Terminated([descriptor][1..], ";;") == "";
    assert text == descriptor + ";;" + Terminated([descriptor][1..], ";;");
    assert text == descriptor + ";;";
    assert IsLatin1(text);
    InstanceListReplyParsed([descriptor]);
    ServerResponseRoundTrip(text, []);
    assert InstanceListReply([descriptor]) + [] == InstanceListReply([descriptor]);
    SplitTerminated([descriptor], ";;");
  }

  // ---------------------------------------------------------------------------
  // The public operations
  // ---------------------------------------------------------------------------

  /** GetInstances(timeout): one broadcast CLNT_BCAST_EX, then up to 255 replies. */
  method GetInstances(timeout: int, trace: seq<ReceiveOutcome>)
    returns (instances: seq<SqlInstance>, ending: Ending, session: Session)
    ensures session.receiveTimeout == timeout && session.broadcast && session.connectedTo == None
    ensures var c := Collect(Replies(trace, DiscoveryReplyLimit), 0);
            && instances == c.instances && ending == c.ending && 1 <= c.receives <= DiscoveryReplyLimit
            && session.events == [Sent(Packet(ClientBroadcastEx(), BrowserEndpoint(BroadcastAddress)))] + Receives(c.receives)
  {
    var events := [Sent(Packet(ClientBroadcastEx(), BrowserEndpoint(BroadcastAddress)))];
    var receives;
    instances, ending, receives := ProcessIncomingInstanceData(trace, DiscoveryReplyLimit);
    CollectReceives(Replies(trace, DiscoveryReplyLimit), 0);
    session := Session(timeout, true, None, events + Receives(receives));
  }

  /** GetInstances(): the same with the default timeout. */
  method GetInstancesDefault(trace: seq<ReceiveOutcome>)
    returns (instances: seq<SqlInstance>, ending: Ending, session: Session)
    ensures session.receiveTimeout == DefaultTimeout && session.broadcast && session.connectedTo == None
    ensures var c := Collect(Replies(trace, DiscoveryReplyLimit), 0);
            && instances == c.instances && ending == c.ending && 1 <= c.receives <= DiscoveryReplyLimit
            && session.events == [Sent(Packet(ClientBroadcastEx(), BrowserEndpoint(BroadcastAddress)))] + Receives(c.receives)
  {
    instances, ending, session := GetInstances(DefaultTimeout, trace);
  }

  /** GetInstancesOn(timeout, addresses): one CLNT_UCAST_EX to each address in
      order, all before the first receive, then up to 255 replies. */
  method GetInstancesOn(timeout: int, addresses: seq<Address>, trace: seq<ReceiveOutcome>)
    returns (instances: seq<SqlInstance>, ending: Ending, session: Session)
    ensures session.receiveTimeout == timeout && !session.broadcast && session.connectedTo == None
    ensures var c := Collect(Replies(trace, DiscoveryReplyLimit), 0);
            && instances == c.instances && ending == c.ending && 1 <= c.receives <= DiscoveryReplyLimit
            && |session.events| == |addresses| + c.receives
            && (forall k :: 0 <= k < |addresses| ==>
                  session.events[k] == Sent(Packet(ClientUnicastEx(), BrowserEndpoint(addresses[k]))))
            && (forall k :: |addresses| <= k < |session.events| ==> session.events[k] == Received)
  {
    var datagram := ClientUnicastEx();
    var events: seq<Event> := [];
    var k := 0;
    while k < |addresses|
      invariant k <= |addresses| && |events| == k
      invariant forall m :: 0 <= m < k ==> events[m] == Sent(Packet(datagram, BrowserEndpoint(addresses[m])))
      decreases |addresses| - k
    {
      events := events + [Sent(Packet(datagram, BrowserEndpoint(addresses[k])))];
      k := k + 1;
    }
    var receives;
    instances, ending, receives := ProcessIncomingInstanceData(trace, DiscoveryReplyLimit);
    CollectReceives(Replies(trace, DiscoveryReplyLimit), 0);
    session := Session(timeout, false, None, events + Receives(receives));
  }

  /** GetInstancesOn(addresses): the same with the default timeout. */
  method GetInstancesOnDefault(addresses: seq<Address>, trace: seq<ReceiveOutcome>)
    returns (instances: seq<SqlInstance>, ending: Ending, session: Session)
    ensures session.receiveTimeout == DefaultTimeout && !session.broadcast && session.connectedTo == None
    ensures var c := Collect(Replies(trace, DiscoveryReplyLimit), 0);
            && instances == c.instances && ending == c.ending && 1 <= c.receives <= DiscoveryReplyLimit
            && |session.events| == |addresses| + c.receives
            && (forall k :: 0 <= k < |addresses| ==>
                  session.events[k] == Sent(Packet(ClientUnicastEx(), BrowserEndpoint(addresses[k]))))
            && (forall k :: |addresses| <= k < |session.events| ==> session.events[k] == Received)
  {
    instances, ending, session := GetInstancesOn(DefaultTimeout, addresses, trace);
  }

  /** GetInstance(address, instanceName, timeout): an invalid name throws before
      anything is sent; otherwise one CLNT_UCAST_INST to the connected endpoint,
      one receive, and Single() over what it yields. */
  method GetInstance(address: Address, instanceName: string, timeout: int, trace: seq<ReceiveOutcome>)
    returns (r: Result<SqlInstance, Error>, session: Session)
    ensures session.receiveTimeout == timeout && !session.broadcast
    ensures InstanceNameBytes(instanceName).Failure? ==>
              && r == Failure(InstanceNameBytes(instanceName).error)
              && session.connectedTo == None && session.events == []
    ensures InstanceNameBytes(instanceName).Success? ==>
              && session.connectedTo == Some(BrowserEndpoint(address))
              && session.events == [Sent(Packet(InstanceRequest(InstanceNameBytes(instanceName).value), BrowserEndpoint(address))),
                                    Received]
              && r == InstanceReply(trace)
  {
    var datagram := ClientUnicastInstance(instanceName);
    if datagram.Failure? {
      return Failure(datagram.error), Session(timeout, false, None, []);
    }
    var endpoint := BrowserEndpoint(address);
    var instances, ending, receives := ProcessIncomingInstanceData(trace, 1);
    r := RenameNoElements(Single(Collected(instances, ending, receives)));
    SingleReplyDecides(trace);
    CollectReceives(Replies(trace, 1), 0);
    session := Session(timeout, false, Some(endpoint), [Sent(Packet(datagram.value, endpoint))] + Receives(receives));
  }

  /** GetInstance(address, instanceName): the same with the default timeout. */
  method GetInstanceDefault(address: Address, instanceName: string, trace: seq<ReceiveOutcome>)
    returns (r: Result<SqlInstance, Error>, session: Session)
    ensures session.receiveTimeout == DefaultTimeout && !session.broadcast
    ensures InstanceNameBytes(instanceName).Failure? ==>
              && r == Failure(InstanceNameBytes(instanceName).error)
              && session.connectedTo == None && session.events == []
    ensures InstanceNameBytes(instanceName).Success? ==>
              && session.connectedTo == Some(BrowserEndpoint(address))
              && session.events == [Sent(Packet(InstanceRequest(InstanceNameBytes(instanceName).value), BrowserEndpoint(address))),
                                    Received]
              && r == InstanceReply(trace)
  {
    r, session := GetInstance(address, instanceName, DefaultTimeout, trace);
  }

  /** What GetDacPort returns for its one reply: a TimedOut receive means the
      instance or its DAC is not available, any other socket error escapes, and
      a datagram is decoded as a DAC SVR_RESP, TCP_DAC_PORT read from bytes 4 and 5. */
  function DacReply(trace: seq<ReceiveOutcome>): (r: Result<int, Error>)
    ensures r.Success? ==> 0 <= r.value < 0x1_0000
    ensures ReceiveAt(trace, 0) == Failed(TimedOut) ==> r == Failure(InvalidOperationException(NoDacMessage))
    ensures ReceiveAt(trace, 0).Failed? && ReceiveAt(trace, 0).code != TimedOut ==>
              r == Failure(SocketException(ReceiveAt(trace, 0).code))
  {
    match ReceiveAt(trace, 0)
    case Failed(code) =>
      if code == TimedOut then Failure(InvalidOperationException(NoDacMessage))
      else Failure(SocketException(code))
    case Datagram(bytes) => ServerResponseDac(bytes)
  }

  /** The same reply read with the decoder as written, which takes byte 3 for the
      low byte of the port. */
  function DacReplyAsWritten(trace: seq<ReceiveOutcome>): Result<int, Error> {
    match ReceiveAt(trace, 0)
    case Failed(code) =>
      if code == TimedOut then Failure(InvalidOperationException(NoDacMessage))
      else Failure(SocketException(code))
    case Datagram(bytes) => ServerResponseDacAsWritten(bytes)
  }

  /** The two readings agree on every outcome but an accepted DAC reply, where the
      code as written gives byte4·256 + 1 instead of the announced port. */
  lemma DacReplyCorrection(trace: seq<ReceiveOutcome>)
    ensures DacReplyAsWritten(trace).Success? <==> DacReply(trace).Success?
    ensures DacReplyAsWritten(trace).Failure? ==> DacReplyAsWritten(trace) == DacReply(trace)
    ensures DacReply(trace).Success? ==>
              var bytes := ReceiveAt(trace, 0).bytes;
              && DacReply(trace).value == (bytes[4] as int) + 0x100 * (bytes[5] as int)
              && DacReplyAsWritten(trace).value == 0x100 * (bytes[4] as int) + 1
  {
  }

  /** A server announcing its DAC port is understood, whatever it sends afterwards;
      the code as written misreads the port-2700 announcement as 35841. */
  lemma DacReplyRoundTrip(port: nat, later: seq<ReceiveOutcome>)
    requires port < 0x1_0000
    ensures DacReply([Datagram(DacResponse(port))] + later) == Success(port)
    ensures port == 2700 ==> DacReplyAsWritten([Datagram(DacResponse(port))] + later) == Success(35841)
  {
    DacResponseRoundTrip(port);
    DacAsWrittenMisreadsPort();
  }

  /** GetDacPort(address, instanceName, timeout): an invalid name throws before
      anything is sent; otherwise one CLNT_UCAST_DAC on the connected socket and
      one receive. */
  method GetDacPort(address: Address, instanceName: string, timeout: int, trace: seq<ReceiveOutcome>)
    returns (r: Result<int, Error>, session: Session)
    ensures session.receiveTimeout == timeout && !session.broadcast
    ensures InstanceNameBytes(instanceName).Failure? ==>
              && r == Failure(InstanceNameBytes(instanceName).error)
              && session.connectedTo == None && session.events == []
    ensures InstanceNameBytes(instanceName).Success? ==>
              && session.connectedTo == Some(BrowserEndpoint(address))
              && session.events == [Sent(Packet(DacRequest(InstanceNameBytes(instanceName).value), BrowserEndpoint(address))),
                                    Received]
              && r == DacReply(trace)
  {
    var datagram := ClientUnicastDac(instanceName);
    if datagram.Failure? {
      return Failure(datagram.error), Session(timeout, false, None, []);
    }
    var endpoint := BrowserEndpoint(address);
    var outcome := ReceiveAt(trace, 0);
    if outcome.Failed? {
      if outcome.code == TimedOut {
        r := Failure(InvalidOperationException(NoDacMessage));
      } else {
        r := Failure(SocketException(outcome.code));
      }
    } else {
      r := ServerResponseDac(outcome.bytes);
    }
    session := Session(timeout, false, Some(endpoint), [Sent(Packet(datagram.value, endpoint)), Received]);
  }

  /** GetDacPort(address, instanceName): the same with the default timeout. */
  method GetDacPortDefault(address: Address, instanceName: string, trace: seq<ReceiveOutcome>)
    returns (r: Result<int, Error>, session: Session)
    ensures session.receiveTimeout == DefaultTimeout && !session.broadcast
    ensures InstanceNameBytes(instanceName).Failure? ==>
              && r == Failure(InstanceNameBytes(instanceName).error)
              && session.connectedTo == None && session.events == []
    ensures InstanceNameBytes(instanceName).Success? ==>
              && session.connectedTo == Some(BrowserEndpoint(address))
              && session.events == [Sent(Packet(DacRequest(InstanceNameBytes(instanceName).value), BrowserEndpoint(address))),
                                    Received]
              && r == DacReply(trace)
  {
    r, session := GetDacPort(address, instanceName, DefaultTimeout, trace);
  }
}
