/*
 * The per-message behaviour of the three play0mq roles that send: the broker,
 * the source and the worker. A process is a Process object that owns the two
 * static buffers of pack_and_send and recv_and_unpack and a log of every frame
 * it has sent; a receive takes the frame the transport delivered as a
 * parameter.
 */
module Roles {
  import opened Wire
  import opened Primes

  /** The value of every acknowledgement the broker sends. */
  const ACK_VALUE: Long := 42

  /** The sockets play0mq sends on. */
  datatype Socket =
    | Sources   // the broker's ZMQ_REP endpoint (tcp://*:4224), for sources and workers
    | Publish   // the broker's ZMQ_PUB endpoint (tcp://*:4225 and ipc://publish.ipc), for sinks
    | Dispatch  // the broker's ZMQ_PUSH endpoint (tcp://*:4226), for workers
    | Broker    // the ZMQ_REQ socket a source or a worker connects to the broker

  /** One zmq_msg_send: the socket, the frame, and whether ZMQ_DONTWAIT was passed. */
  datatype Send = Send(socket: Socket, frame: seq<char>, dontWait: bool)

  /**
   * One call of recv_and_unpack as the transport and the caller set it up: the
   * frame zmq_msg_recv delivered (None when it returned -1) and what the
   * caller's value variable held before the call.
   */
  datatype Inbound = Inbound(frame: Option<seq<char>>, prior: Long)

  /** An (identifier, value) pair. */
  datatype Message = Message(identifier: string, value: Long)

  /** pack_and_send can format the pair: a C string identifier, and a text that fits the buffer. */
  predicate Sendable(m: Message) {
    NUL !in m.identifier && Fits(m.identifier, m.value)
  }

  /** A pair that survives encoding and decoding unchanged. */
  predicate WellFormed(m: Message) {
    ValidIdentifier(m.identifier) && Fits(m.identifier, m.value)
  }

  function Frame(m: Message): seq<char>
    requires Sendable(m)
  {
    Encode(m.identifier, m.value)
  }

  /** The frame of ("ack", 42). */
  function AckFrame(): seq<char> {
    ShortIdentifierFits("ack", ACK_VALUE);
    Encode("ack", ACK_VALUE)
  }

  /** A frame recv_and_unpack can take: a missing one, or a C string whose token fits the buffer. */
  predicate Deliverable(frame: Option<seq<char>>) {
    frame.Some? ==> Receivable(frame.value)
  }

  /** The value recv_and_unpack leaves in the caller's variable. */
  function ReceivedValue(r: Inbound): Long
    requires Deliverable(r.frame)
  {
    UnpackedValue(r.frame, r.prior)
  }

  /** The pair the broker acts on for a request frame, given the buffer's stale string and *value. */
  function Request(frame: seq<char>, stale: string, prior: Long): (m: Message)
    requires NUL in frame && NUL !in stale
    ensures NUL !in m.identifier
  {
    var (identifier, number) := Unpack(Some(frame), stale, prior);
    Message(identifier.value, number)
  }

  /** A well-formed pair is what the broker reads back from its own frame, whatever the buffer held before. */
  lemma RequestOfFrame(m: Message, stale: string)
    requires WellFormed(m) && NUL !in stale
    ensures Sendable(m) && Receivable(Frame(m)) && Request(Frame(m), stale, 0) == m
  {
    UnpackEncoded(m.identifier, m.value, stale, 0);
  }

  // ---------------------------------------------------------------------------
  // What the broker sends
  // ---------------------------------------------------------------------------

  /** The sends of one pass through the broker's loop for request m. */
  function Routed(m: Message): seq<Send>
    requires Sendable(m)
  {
    [Send(Sources, AckFrame(), false), Send(Publish, Frame(m), false)]
    + if m.identifier == "number" then [Send(Dispatch, Frame(m), true)] else []
  }

  /**
   * One acknowledgement on the reply endpoint, first and only there, then m
   * published unchanged, then, exactly when the identifier is "number", m
   * pushed to the workers without blocking; ZMQ_DONTWAIT on that push only.
   */
  lemma RoutedOrder(m: Message)
    requires Sendable(m)
    ensures var r := Routed(m);
      && |r| == (if m.identifier == "number" then 3 else 2)
      && (forall k :: 0 <= k < |r| ==> (r[k].socket == Sources <==> k == 0))
      && r[0].frame == AckFrame() && r[1] == Send(Publish, Frame(m), false)
      && (forall k :: 0 <= k < |r| ==> (r[k].socket == Dispatch <==> k == 2))
      && (forall k :: 0 <= k < |r| ==> (r[k].dontWait <==> r[k].socket == Dispatch))
      && (|r| == 3 ==> r[2].frame == Frame(m))
  {
  }

  /** The sends of Routed(m) appended one at a time. */
  lemma RoutedAppend(before: seq<Send>, m: Message)
    requires Sendable(m)
    ensures var ack := Send(Sources, AckFrame(), false);
      var publish := Send(Publish, Frame(m), false);
      var dispatch := Send(Dispatch, Frame(m), true);
      before + Routed(m) ==
        if m.identifier == "number" then before + [ack] + [publish] + [dispatch] else before + [ack] + [publish]
  {
  }

  predicate AllSendable(ms: seq<Message>) {
    forall i :: 0 <= i < |ms| ==> Sendable(ms[i])
  }

  /** The sends of the broker's loop for a sequence of requests. */
  function RoutedAll(ms: seq<Message>): seq<Send>
    requires AllSendable(ms)
  {
    if ms == [] then [] else RoutedAll(ms[..|ms| - 1]) + Routed(ms[|ms| - 1])
  }

  /** The frames of a trace that went out on one socket, in order. */
  function FramesOn(trace: seq<Send>, socket: Socket): seq<seq<char>> {
    if trace == [] then []
    else
      FramesOn(trace[..|trace| - 1], socket)
      + if trace[|trace| - 1].socket == socket then [trace[|trace| - 1].frame] else []
  }

  lemma {:induction false} FramesOnAppend(a: seq<Send>, b: seq<Send>, socket: Socket)
    ensures FramesOn(a + b, socket) == FramesOn(a, socket) + FramesOn(b, socket)
    decreases |b|
  {
    if b != [] {
      assert (a + b)[..|a + b| - 1] == a + b[..|b| - 1];
      FramesOnAppend(a, b[..|b| - 1], socket);
    } else {
      assert a + b == a;
    }
  }

  function Frames(ms: seq<Message>): (fs: seq<seq<char>>)
    requires AllSendable(ms)
    ensures |fs| == |ms|
  {
    if ms == [] then [] else Frames(ms[..|ms| - 1]) + [Frame(ms[|ms| - 1])]
  }

  /** The requests whose identifier is "number". */
  function Numbers(ms: seq<Message>): (ns: seq<Message>)
    ensures forall i :: 0 <= i < |ns| ==> ns[i].identifier == "number" && ns[i] in ms
  {
    if ms == [] then []
    else Numbers(ms[..|ms| - 1]) + if ms[|ms| - 1].identifier == "number" then [ms[|ms| - 1]] else []
  }

  /** n copies of the acknowledgement frame. */
  function Acks(n: nat): (r: seq<seq<char>>)
    ensures |r| == n && forall i :: 0 <= i < n ==> r[i] == AckFrame()
  {
    if n == 0 then [] else Acks(n - 1) + [AckFrame()]
  }

  /** The broker answers every request with exactly one acknowledgement, ("ack", 42). */
  lemma {:induction false} OneAckPerRequest(ms: seq<Message>)
    requires AllSendable(ms)
    ensures FramesOn(RoutedAll(ms), Sources) == Acks(|ms|)
  {
    if ms != [] {
      var init := ms[..|ms| - 1];
      var m := ms[|ms| - 1];
      OneAckPerRequest(init);
      FramesOnAppend(RoutedAll(init), Routed(m), Sources);
      RoutedSocketFrames(m);
    }
  }

  /** The broker republishes every request unchanged, in the order it received them. */
  lemma {:induction false} EveryRequestPublished(ms: seq<Message>)
    requires AllSendable(ms)
    ensures FramesOn(RoutedAll(ms), Publish) == Frames(ms)
  {
    if ms != [] {
      var init := ms[..|ms| - 1];
      var m := ms[|ms| - 1];
      EveryRequestPublished(init);
      FramesOnAppend(RoutedAll(init), Routed(m), Publish);
      RoutedSocketFrames(m);
    }
  }

  /** The broker dispatches exactly the "number" requests, in order; "prime" reports never return to the workers. */
  lemma {:induction false} OnlyNumbersDispatched(ms: seq<Message>)
    requires AllSendable(ms)
    ensures AllSendable(Numbers(ms))
    ensures FramesOn(RoutedAll(ms), Dispatch) == Frames(Numbers(ms))
  {
    if ms != [] {
      var init := ms[..|ms| - 1];
      var m := ms[|ms| - 1];
      OnlyNumbersDispatched(init);
      FramesOnAppend(RoutedAll(init), Routed(m), Dispatch);
      RoutedSocketFrames(m);
      if m.identifier == "number" {
        assert Numbers(ms) == Numbers(init) + [m];
        assert Frames(Numbers(ms))[..|Numbers(ms)| - 1] == Frames(Numbers(init));
      } else {
        assert Numbers(ms) == Numbers(init);
      }
    }
  }

  /** Nothing else is sent: two sends per request plus one per "number" request, none on a client socket. */
  lemma {:induction false} NothingElseSent(ms: seq<Message>)
    requires AllSendable(ms)
    ensures |RoutedAll(ms)| == 2 * |ms| + |Numbers(ms)|
    ensures FramesOn(RoutedAll(ms), Broker) == []
  {
    if ms != [] {
      var init := ms[..|ms| - 1];
      var m := ms[|ms| - 1];
      NothingElseSent(init);
      FramesOnAppend(RoutedAll(init), Routed(m), Broker);
      RoutedSocketFrames(m);
    }
  }

  lemma FramesOnSingle(s: Send, socket: Socket)
    ensures FramesOn([s], socket) == if s.socket == socket then [s.frame] else []
  {
    assert [s][..0] == [];
  }

  /** The frames per socket of an acknowledgement, a publish and an optional dispatch, whatever the frames. */
  lemma FramesOnPass(ackFrame: seq<char>, frame: seq<char>, dispatch: bool, socket: Socket)
    ensures var ack := Send(Sources, ackFrame, false);
      var publish := Send(Publish, frame, false);
      var tail := if dispatch then [Send(Dispatch, frame, true)] else [];
      FramesOn([ack, publish] + tail, socket) ==
        (if socket == Sources then [ackFrame] else []) +
        (if socket == Publish then [frame] else []) +
        (if socket == Dispatch && dispatch then [frame] else [])
  {
    var ack := Send(Sources, ackFrame, false);
    var publish := Send(Publish, frame, false);
    var tail := if dispatch then [Send(Dispatch, frame, true)] else [];
    assert [ack, publish] + tail == ([ack] + [publish]) + tail;
    FramesOnAppend([ack] + [publish], tail, socket);
    FramesOnAppend([ack], [publish], socket);
    FramesOnSingle(ack, socket);
    FramesOnSingle(publish, socket);
    if dispatch {
      FramesOnSingle(tail[0], socket);
    }
  }

  /** The frames one socket receives in one pass through the broker's loop. */
  lemma FramesOnRouted(m: Message, socket: Socket)
    requires Sendable(m)
    ensures FramesOn(Routed(m), socket) ==
      (if socket == Sources then [AckFrame()] else []) +
      (if socket == Publish then [Frame(m)] else []) +
      (if socket == Dispatch && m.identifier == "number" then [Frame(m)] else [])
  {
    FramesOnPass(AckFrame(), Frame(m), m.identifier == "number", socket);
  }

  /** The frames each socket receives in one pass through the broker's loop. */
  lemma RoutedSocketFrames(m: Message)
    requires Sendable(m)
    ensures FramesOn(Routed(m), Sources) == [AckFrame()]
    ensures FramesOn(Routed(m), Publish) == [Frame(m)]
    ensures FramesOn(Routed(m), Dispatch) == if m.identifier == "number" then [Frame(m)] else []
    ensures FramesOn(Routed(m), Broker) == []
  {
    FramesOnRouted(m, Sources);
    FramesOnRouted(m, Publish);
    FramesOnRouted(m, Dispatch);
    FramesOnRouted(m, Broker);
  }

  lemma RoutedAllSnoc(before: seq<Send>, ms: seq<Message>, i: nat)
    requires AllSendable(ms) && i < |ms|
    ensures AllSendable(ms[..i]) && AllSendable(ms[..i + 1])
    ensures before + RoutedAll(ms[..i]) + Routed(ms[i]) == before + RoutedAll(ms[..i + 1])
  {
    assert ms[..i + 1][..i] == ms[..i];
  }

  // ---------------------------------------------------------------------------
  // What the source sends
  // ---------------------------------------------------------------------------

  function NumberRequest(n: Long): Send {
    ShortIdentifierFits("number", n);
    Send(Broker, Encode("number", n), false)
  }

  /** The requests of a source's first k rounds: ("number", 1) up to ("number", k). */
  function NumberRequests(k: nat): (r: seq<Send>)
    requires k <= LONG_MAX
    ensures |r| == k
  {
    if k == 0 then [] else NumberRequests(k - 1) + [NumberRequest(k)]
  }

  lemma NumberRequestsSnoc(before: seq<Send>, k: nat)
    requires k < LONG_MAX
    ensures before + NumberRequests(k) + [NumberRequest(k + 1)] == before + NumberRequests(k + 1)
  {
  }

  /** The request ("number", n) goes to the broker, waits for the reply and decodes to the pair again. */
  lemma NumberRequestDecodes(n: Long)
    ensures NumberRequest(n).socket == Broker && !NumberRequest(n).dontWait
    ensures NUL in NumberRequest(n).frame
    ensures Decode(NumberRequest(n).frame) == TokenAndLong("number", n)
  {
    ShortIdentifierFits("number", n);
    RoundTrip("number", n);
  }

  /** Round i + 1 of a source sends the request ("number", i + 1): the counter starts at 1 and goes up by one a round. */
  lemma {:induction false} SourceCountsFromOne(k: nat, i: nat)
    requires k <= LONG_MAX && i < k
    ensures NumberRequests(k)[i] == NumberRequest(i + 1)
    decreases k
  {
    if i < k - 1 {
      SourceCountsFromOne(k - 1, i);
    }
  }

  /** Where a loop of the source or a worker ends: after how many passes, and whether at a failed assert. */
  datatype RunEnd = RunEnd(passes: nat, violated: bool)

  /**
   * Where a loop that fails its assert on pass i exactly when stops[i] holds
   * ends, when it resumes at pass k.
   */
  function FirstStop(stops: seq<bool>, k: nat): (r: RunEnd)
    requires k <= |stops|
    ensures k <= r.passes <= |stops|
    decreases |stops| - k
  {
    if k == |stops| then RunEnd(k, false)
    else if stops[k] then RunEnd(k + 1, true)
    else FirstStop(stops, k + 1)
  }

  lemma FirstStopStep(stops: seq<bool>, k: nat)
    requires k < |stops|
    ensures FirstStop(stops, k) == if stops[k] then RunEnd(k + 1, true) else FirstStop(stops, k + 1)
  {
  }

  /**
   * The loop stops at the first failing pass: every earlier pass went
   * through, and without a failing pass it runs through all of them.
   */
  lemma {:induction false} FirstStopIsFirst(stops: seq<bool>, k: nat)
    requires k <= |stops|
    ensures var r := FirstStop(stops, k);
      && (!r.violated ==> r.passes == |stops|)
      && (r.violated ==> k < r.passes && stops[r.passes - 1])
      && forall i :: k <= i < r.passes && (i < r.passes - 1 || !r.violated) ==> !stops[i]
    decreases |stops| - k
  {
    if k < |stops| && !stops[k] {
      FirstStopIsFirst(stops, k + 1);
    }
  }

  /** Which replies make the source's assert(value == 42) fail. */
  function AckFailures(replies: seq<Inbound>): (stops: seq<bool>)
    requires forall i :: 0 <= i < |replies| ==> Deliverable(replies[i].frame)
    ensures |stops| == |replies|
  {
    if replies == [] then []
    else AckFailures(replies[..|replies| - 1]) + [ReceivedValue(replies[|replies| - 1]) != ACK_VALUE]
  }

  /** Reply k makes the assert fail exactly when its value is not 42. */
  lemma {:induction false} AckFailureAt(replies: seq<Inbound>, k: nat)
    requires forall i :: 0 <= i < |replies| ==> Deliverable(replies[i].frame)
    requires k < |replies|
    ensures AckFailures(replies)[k] <==> ReceivedValue(replies[k]) != ACK_VALUE
    decreases |replies|
  {
    if k < |replies| - 1 {
      assert replies[..|replies| - 1][k] == replies[k];
      AckFailureAt(replies[..|replies| - 1], k);
    }
  }

  lemma AckFailuresMeaning(replies: seq<Inbound>)
    requires forall i :: 0 <= i < |replies| ==> Deliverable(replies[i].frame)
    ensures forall i :: 0 <= i < |replies| ==> (AckFailures(replies)[i] <==> ReceivedValue(replies[i]) != ACK_VALUE)
  {
    forall i | 0 <= i < |replies| ensures AckFailures(replies)[i] <==> ReceivedValue(replies[i]) != ACK_VALUE {
      AckFailureAt(replies, i);
    }
  }

  /**
   * How a source's loop ends on the replies it receives: the number of rounds
   * it runs, and whether it stops at a reply whose value is not 42.
   */
  function SourceOutcome(replies: seq<Inbound>): RunEnd
    requires forall i :: 0 <= i < |replies| ==> Deliverable(replies[i].frame)
  {
    FirstStop(AckFailures(replies), 0)
  }

  /**
   * The source stops exactly at the first reply that is not 42: every reply
   * before it carried 42, and without one it runs through all replies.
   */
  lemma {:induction false} SourceStopsAtFirstMismatch(replies: seq<Inbound>)
    requires forall i :: 0 <= i < |replies| ==> Deliverable(replies[i].frame)
    ensures var r := SourceOutcome(replies);
      && (!r.violated ==> r.passes == |replies|)
      && (r.violated ==> 0 < r.passes && ReceivedValue(replies[r.passes - 1]) != ACK_VALUE)
      && forall i :: 0 <= i < r.passes && (i < r.passes - 1 || !r.violated) ==> ReceivedValue(replies[i]) == ACK_VALUE
  {
    FirstStopIsFirst(AckFailures(replies), 0);
    AckFailuresMeaning(replies);
  }

  /** The C string left in the source's receive buffer after it reads replies, in order. */
  function SourceBuffer(replies: seq<Inbound>, stale: string): string
    requires forall i :: 0 <= i < |replies| ==> Deliverable(replies[i].frame)
  {
    if replies == [] then stale
    else
      var last := replies[|replies| - 1].frame;
      assert Deliverable(last);
      BufferAfter(last, SourceBuffer(replies[..|replies| - 1], stale))
  }

  lemma SourceBufferSnoc(replies: seq<Inbound>, k: nat, stale: string)
    requires k < |replies| && forall i :: 0 <= i < |replies| ==> Deliverable(replies[i].frame)
    ensures SourceBuffer(replies[..k + 1], stale) == BufferAfter(replies[k].frame, SourceBuffer(replies[..k], stale))
  {
    assert replies[..k + 1][..k] == replies[..k];
  }

  // ---------------------------------------------------------------------------
  // What a worker sends
  // ---------------------------------------------------------------------------

  /** The values a worker's receives leave in its variable, in order. */
  function ReceivedValues(items: seq<Inbound>): (vs: seq<int>)
    requires forall i :: 0 <= i < |items| ==> Deliverable(items[i].frame)
    ensures |vs| == |items| && forall i :: 0 <= i < |vs| ==> vs[i] == ReceivedValue(items[i])
  {
    if items == [] then []
    else ReceivedValues(items[..|items| - 1]) + [ReceivedValue(items[|items| - 1]) as int]
  }

  /** The numbers a worker reports, in the order it pulled them. */
  ghost function ReportedPrimes(items: seq<Inbound>): seq<Long>
    requires forall i :: 0 <= i < |items| ==> Deliverable(items[i].frame)
  {
    if items == [] then []
    else
      var n := ReceivedValue(items[|items| - 1]);
      ReportedPrimes(items[..|items| - 1]) + if IsPrime(n) then [n] else []
  }

  /** A worker reports exactly the primes among the values it pulls, in order. */
  lemma {:induction false} ReportedPrimesArePrimesIn(items: seq<Inbound>)
    requires forall i :: 0 <= i < |items| ==> Deliverable(items[i].frame)
    ensures ReportedPrimes(items) == PrimesIn(ReceivedValues(items))
  {
    if items != [] {
      var init := items[..|items| - 1];
      var n := ReceivedValue(items[|items| - 1]);
      ReportedPrimesArePrimesIn(init);
      PrimesInSnoc(ReceivedValues(init), n);
    }
  }

  function PrimeReport(n: Long): Send {
    ShortIdentifierFits("prime", n);
    Send(Broker, Encode("prime", n), false)
  }

  /** The reports ("prime", p) for each p of ps, in order. */
  function PrimeReports(ps: seq<Long>): (r: seq<Send>)
    ensures |r| == |ps|
  {
    if ps == [] then [] else PrimeReports(ps[..|ps| - 1]) + [PrimeReport(ps[|ps| - 1])]
  }

  /** Report j is the frame ("prime", ps[j]) sent to the broker and waiting for the reply. */
  lemma {:induction false} PrimeReportsDecode(ps: seq<Long>, j: nat)
    requires j < |ps|
    ensures PrimeReports(ps)[j].socket == Broker && !PrimeReports(ps)[j].dontWait
    ensures NUL in PrimeReports(ps)[j].frame
    ensures Decode(PrimeReports(ps)[j].frame) == TokenAndLong("prime", ps[j])
    decreases |ps|
  {
    if j < |ps| - 1 {
      assert ps[..|ps| - 1][j] == ps[j];
      PrimeReportsDecode(ps[..|ps| - 1], j);
    } else {
      ShortIdentifierFits("prime", ps[j]);
      RoundTrip("prime", ps[j]);
    }
  }

  /** What one pass through a worker's loop ends with. */
  datatype WorkerPass =
    | Skipped      // not prime: nothing sent
    | Reported     // prime: reported and acknowledged with 42
    | AckMismatch  // prime: reported, but assert(number == 42) fails

  /** Pass k of a worker fails its assert: the number is prime and the reply to its report is not 42. */
  ghost predicate AckMissing(items: seq<Inbound>, acks: seq<Option<seq<char>>>, k: nat)
    requires k < |items| == |acks| && Deliverable(items[k].frame) && Deliverable(acks[k])
  {
    IsPrime(ReceivedValue(items[k])) && UnpackedValue(acks[k], ReceivedValue(items[k])) != ACK_VALUE
  }

  ghost predicate Pulled(items: seq<Inbound>, acks: seq<Option<seq<char>>>) {
    |acks| == |items| && forall i :: 0 <= i < |items| ==> Deliverable(items[i].frame) && Deliverable(acks[i])
  }

  /** Which passes of a worker make its assert(number == 42) fail. */
  ghost function AckMissings(items: seq<Inbound>, acks: seq<Option<seq<char>>>): (stops: seq<bool>)
    requires Pulled(items, acks)
    ensures |stops| == |items|
    ensures forall i :: 0 <= i < |items| ==> (stops[i] <==> AckMissing(items, acks, i))
  {
    seq(|items|, i requires 0 <= i < |items| => AckMissing(items, acks, i))
  }

  /** How a worker's loop ends on the items it pulls and the replies to its reports. */
  ghost function WorkerOutcome(items: seq<Inbound>, acks: seq<Option<seq<char>>>): RunEnd
    requires Pulled(items, acks)
  {
    FirstStop(AckMissings(items, acks), 0)
  }

  /** The C string left in a worker's receive buffer by one pass: the item's token, then the reply's when it is prime. */
  ghost function PassBuffer(item: Inbound, ack: Option<seq<char>>, stale: string): string
    requires Deliverable(item.frame) && Deliverable(ack)
  {
    var s := BufferAfter(item.frame, stale);
    if IsPrime(ReceivedValue(item)) then BufferAfter(ack, s) else s
  }

  /** The C string left in a worker's receive buffer after its first n passes, in order. */
  ghost function WorkerBuffer(items: seq<Inbound>, acks: seq<Option<seq<char>>>, n: nat, stale: string): string
    requires Pulled(items, acks) && n <= |items|
  {
    if n == 0 then stale else PassBuffer(items[n - 1], acks[n - 1], WorkerBuffer(items, acks, n - 1, stale))
  }

  /**
   * A worker stops exactly at the first prime whose acknowledgement is not
   * 42; without one it handles every item.
   */
  lemma WorkerStopsAtFirstMismatch(items: seq<Inbound>, acks: seq<Option<seq<char>>>)
    requires Pulled(items, acks)
    ensures var r := WorkerOutcome(items, acks);
      && (!r.violated ==> r.passes == |items|)
      && (r.violated ==> 0 < r.passes && AckMissing(items, acks, r.passes - 1))
      && forall i :: 0 <= i < r.passes && (i < r.passes - 1 || !r.violated) ==> !AckMissing(items, acks, i)
  {
    FirstStopIsFirst(AckMissings(items, acks), 0);
  }

  /** The primes among the first k + 1 items: those among the first k, then item k when it is prime. */
  lemma ReportedPrimesSnoc(items: seq<Inbound>, k: nat)
    requires k < |items| && forall i :: 0 <= i < |items| ==> Deliverable(items[i].frame)
    ensures var n := ReceivedValue(items[k]);
      ReportedPrimes(items[..k + 1]) == ReportedPrimes(items[..k]) + if IsPrime(n) then [n] else []
  {
    assert items[..k + 1][..k] == items[..k];
  }

  /** Extending the reported numbers by n, or by nothing, extends the trace by n's report, or by nothing. */
  lemma PrimeReportsSnoc(before: seq<Send>, init: seq<Long>, ps: seq<Long>, n: Long, prime: bool)
    requires ps == init + if prime then [n] else []
    ensures before + PrimeReports(init) + (if prime then [PrimeReport(n)] else []) == before + PrimeReports(ps)
  {
    if prime {
      assert ps[..|ps| - 1] == init;
      assert before + PrimeReports(init) + [PrimeReport(n)] == before + (PrimeReports(init) + [PrimeReport(n)]);
    } else {
      assert ps == init;
    }
  }

  /** The reports of the first k + 1 items: those of the first k, then item k's when it is prime. */
  lemma WorkerReportsSnoc(before: seq<Send>, items: seq<Inbound>, k: nat)
    requires k < |items| && forall i :: 0 <= i < |items| ==> Deliverable(items[i].frame)
    ensures var n := ReceivedValue(items[k]);
      before + PrimeReports(ReportedPrimes(items[..k])) + (if IsPrime(n) then [PrimeReport(n)] else [])
      == before + PrimeReports(ReportedPrimes(items[..k + 1]))
  {
    var n := ReceivedValue(items[k]);
    ReportedPrimesSnoc(items, k);
    PrimeReportsSnoc(before, ReportedPrimes(items[..k]), ReportedPrimes(items[..k + 1]), n, IsPrime(n));
  }

  // ---------------------------------------------------------------------------
  // A play0mq process
  // ---------------------------------------------------------------------------

  class Process {
    /** Every frame this process has sent, in order. */
    var sent: seq<Send>
    /** static char buffer[1024] of pack_and_send. */
    const packBuffer: array<char>
    /** static char buffer[1024] of recv_and_unpack. */
    const unpackBuffer: array<char>

    ghost predicate Valid()
      reads this, unpackBuffer
    {
      packBuffer.Length == BUFFER_SIZE && unpackBuffer.Length == BUFFER_SIZE &&
      packBuffer != unpackBuffer && unpackBuffer[BUFFER_SIZE - 1] == NUL
    }

    /** The C string left in recv_and_unpack's buffer by the last token it scanned. */
    function Stale(): (s: string)
      requires Valid()
      reads this, unpackBuffer
      ensures NUL !in s && |s| < BUFFER_SIZE
    {
      assert unpackBuffer[..][BUFFER_SIZE - 1] == NUL;
      CStr(unpackBuffer[..])
    }

    /** A fresh process: nothing sent, both static buffers zero. */
    constructor ()
      ensures Valid() && sent == [] && Stale() == ""
      ensures forall i :: 0 <= i < BUFFER_SIZE ==> packBuffer[i] == NUL && unpackBuffer[i] == NUL
      ensures fresh(packBuffer) && fresh(unpackBuffer)
    {
      sent := [];
      packBuffer := new char[BUFFER_SIZE](_ => NUL);
      unpackBuffer := new char[BUFFER_SIZE](_ => NUL);
      new;
      assert unpackBuffer[..][0] == NUL;
      assert unpackBuffer[..][..0] == [];
    }

    /**
     * pack_and_send: format the pair into the static buffer and send
     * strlen(buffer) + 1 bytes of it as one frame.
     */
    method PackAndSend(socket: Socket, identifier: string, value: Long, dontWait: bool)
      requires Valid() && NUL !in identifier && Fits(identifier, value)
      modifies this, packBuffer
      ensures Valid() && Stale() == old(Stale())
      ensures sent == old(sent) + [Send(socket, Encode(identifier, value), dontWait)]
      ensures packBuffer[..|Encode(identifier, value)|] == Encode(identifier, value)
    {
      var text := Text(identifier, value);
      assert Encode(identifier, value) == text + [NUL];
      // sprintf(buffer, "%s %ld", identifier, value)
      forall i | 0 <= i <= |text| {
        packBuffer[i] := if i < |text| then text[i] else NUL;
      }
      assert packBuffer[..] == text + [NUL] + packBuffer[|text| + 1..];
      CStrOfTerminated(text, packBuffer[|text| + 1..]);
      var len := |CStr(packBuffer[..])| + 1;
      // memcpy(zmq_msg_data(&m), buffer, len) and zmq_msg_send
      var frame := packBuffer[..len];
      sent := sent + [Send(socket, frame, dontWait)];
      assert unpackBuffer[..] == old(unpackBuffer[..]);
    }

    /** What sscanf's %s does to the static buffer: the token and a NUL at its start. */
    method StoreToken(token: string)
      requires Valid() && NUL !in token && |token| < BUFFER_SIZE
      modifies unpackBuffer
      ensures Valid() && Stale() == token
      ensures unpackBuffer[..|token| + 1] == token + [NUL]
      ensures unpackBuffer[|token| + 1..] == old(unpackBuffer[|token| + 1..])
    {
      forall i | 0 <= i <= |token| {
        unpackBuffer[i] := if i < |token| then token[i] else NUL;
      }
      assert unpackBuffer[..] == token + [NUL] + unpackBuffer[|token| + 1..];
      CStrOfTerminated(token, unpackBuffer[|token| + 1..]);
    }

    /**
     * recv_and_unpack: a failed receive gives a NULL identifier and 0;
     * otherwise sscanf(frame, "%s %ld") fills the static buffer and the
     * value, and the identifier is a copy of the buffer's C string.
     */
    method RecvAndUnpack(frame: Option<seq<char>>, prior: Long) returns (identifier: Option<string>, value: Long)
      requires Valid() && Deliverable(frame)
      modifies unpackBuffer
      ensures Valid()
      ensures (identifier, value) == Unpack(frame, old(Stale()), prior)
      ensures Stale() == if identifier.Some? then identifier.value else old(Stale())
    {
      if frame.None? {
        // zmq_msg_recv returned -1
        identifier, value := None, 0;
        return;
      }
      value := prior;
      match Decode(frame.value) {
        case NoInput =>
        case TokenOnly(t) =>
          StoreToken(t);
        case TokenAndLong(t, v) =>
          StoreToken(t);
          value := v;
      }
      // malloc(strlen(buffer) + 1) and memcpy
      identifier := Some(Stale());
    }

    /**
     * One pass through the broker's loop, on a request that arrived at the
     * reply endpoint: acknowledge with ("ack", 42), publish the request, and
     * push it to the workers without blocking when its identifier is "number".
     */
    method BrokerStep(request: seq<char>, prior: Long)
      requires Valid() && Receivable(request)
      requires Sendable(Request(request, Stale(), prior))
      modifies this, packBuffer, unpackBuffer
      ensures Valid()
      ensures sent == old(sent) + Routed(Request(request, old(Stale()), prior))
      ensures Stale() == Request(request, old(Stale()), prior).identifier
    {
      ghost var m := Request(request, Stale(), prior);
      RoutedAppend(old(sent), m);
      var identifier, number := RecvAndUnpack(Some(request), prior);
      assert identifier.value == m.identifier && number == m.value;
      ShortIdentifierFits("ack", ACK_VALUE);
      PackAndSend(Sources, "ack", ACK_VALUE, false);
      PackAndSend(Publish, identifier.value, number, false);
      if identifier.value == "number" {
        PackAndSend(Dispatch, identifier.value, number, true);
      }
    }

    /**
     * The broker's loop over a sequence of requests, each the frame of a
     * well-formed pair. The loop's uninitialised `number` is given as 0: the
     * frames scan completely, so it is always overwritten.
     */
    method Serve(requests: seq<Message>)
      requires Valid() && forall i :: 0 <= i < |requests| ==> WellFormed(requests[i])
      modifies this, packBuffer, unpackBuffer
      ensures Valid() && AllSendable(requests)
      ensures sent == old(sent) + RoutedAll(requests)
      ensures Stale() == if requests == [] then old(Stale()) else requests[|requests| - 1].identifier
    {
      ghost var start := sent;
      ghost var stale := Stale();
      var i := 0;
      while i < |requests|
        invariant 0 <= i <= |requests| && Valid()
        invariant sent == start + RoutedAll(requests[..i])
        invariant i == 0 ==> Stale() == stale
        invariant i > 0 ==> Stale() == requests[i - 1].identifier
      {
        var m := requests[i];
        RequestOfFrame(m, Stale());
        BrokerStep(Frame(m), 0);
        RoutedAllSnoc(start, requests, i);
        i := i + 1;
      }
      assert requests[..i] == requests;
    }

    /**
     * Round k of the source's loop, with the counter at k + 1: send
     * ("number", k + 1) to the broker and read reply k, which ends the loop
     * when its value is not 42.
     */
    method SourceStep(number: Long, replies: seq<Inbound>, k: nat) returns (value: Long)
      requires Valid() && number == k + 1 && k < |replies|
      requires forall i :: 0 <= i < |replies| ==> Deliverable(replies[i].frame)
      modifies this, packBuffer, unpackBuffer
      ensures Valid()
      ensures FirstStop(AckFailures(replies), k)
        == if value != ACK_VALUE then RunEnd(k + 1, true) else FirstStop(AckFailures(replies), k + 1)
      ensures sent == old(sent) + [NumberRequest(number)]
      ensures Stale() == BufferAfter(replies[k].frame, old(Stale()))
    {
      FirstStopStep(AckFailures(replies), k);
      AckFailureAt(replies, k);
      ShortIdentifierFits("number", number);
      PackAndSend(Broker, "number", number, false);
      var identifier;
      identifier, value := RecvAndUnpack(replies[k].frame, replies[k].prior);
    }

    /**
     * The source's loop over the acknowledgements it receives: the counter
     * starts at 1, each round sends ("number", counter), requires the value of
     * the reply to be 42 (assert(value == 42), which stops the process), and
     * increments the counter.
     */
    method SourceRun(replies: seq<Inbound>) returns (rounds: nat, violated: bool)
      requires Valid() && |replies| < LONG_MAX
      requires forall i :: 0 <= i < |replies| ==> Deliverable(replies[i].frame)
      modifies this, packBuffer, unpackBuffer
      ensures Valid() && RunEnd(rounds, violated) == SourceOutcome(replies)
      ensures sent == old(sent) + NumberRequests(rounds)
      ensures Stale() == SourceBuffer(replies[..rounds], old(Stale()))
    {
      ghost var start := sent;
      ghost var stale := Stale();
      ghost var stops := AckFailures(replies);
      ghost var outcome := SourceOutcome(replies);
      var number: Long := 1;
      rounds, violated := 0, false;
      while rounds < |replies| && !violated
        invariant rounds <= |replies| && number == rounds + 1 && Valid()
        invariant sent == start + NumberRequests(rounds)
        invariant outcome == if violated then RunEnd(rounds, true) else FirstStop(stops, rounds)
        invariant Stale() == SourceBuffer(replies[..rounds], stale)
      {
        NumberRequestsSnoc(start, rounds);
        SourceBufferSnoc(replies, rounds, stale);
        var value := SourceStep(number, replies, rounds);
        rounds := rounds + 1;
        number := number + 1;
        violated := value != ACK_VALUE;
      }
    }

    /**
     * Pass k through a worker's loop: pull item k; when its number is prime,
     * report ("prime", number) to the broker and read the reply into the
     * same variable, which must then hold 42.
     */
    method WorkerStep(items: seq<Inbound>, acks: seq<Option<seq<char>>>, k: nat) returns (outcome: WorkerPass)
      requires Valid() && Pulled(items, acks) && k < |items|
      modifies this, packBuffer, unpackBuffer
      ensures Valid()
      ensures var n := ReceivedValue(items[k]);
        && sent == old(sent) + (if IsPrime(n) then [PrimeReport(n)] else [])
        && outcome == if !IsPrime(n) then Skipped else if UnpackedValue(acks[k], n) == ACK_VALUE then Reported else AckMismatch
      ensures outcome == AckMismatch <==> AckMissings(items, acks)[k]
      ensures Stale() == PassBuffer(items[k], acks[k], old(Stale()))
    {
      var identifier, number := RecvAndUnpack(items[k].frame, items[k].prior);
      var prime := TrialDivision(number);
      if prime {
        ShortIdentifierFits("prime", number);
        PackAndSend(Broker, "prime", number, false);
        identifier, number := RecvAndUnpack(acks[k], number);
        outcome := if number == ACK_VALUE then Reported else AckMismatch;
      } else {
        outcome := Skipped;
      }
    }

    /**
     * A worker's loop over the items it pulls, with the reply the broker gives
     * to each item's report (read only when the item is prime): it reports
     * the primes in order and stops at the first reply that is not 42.
     */
    method WorkerRun(items: seq<Inbound>, acks: seq<Option<seq<char>>>) returns (handled: nat, violated: bool)
      requires Valid() && Pulled(items, acks)
      modifies this, packBuffer, unpackBuffer
      ensures Valid() && RunEnd(handled, violated) == WorkerOutcome(items, acks)
      ensures sent == old(sent) + PrimeReports(ReportedPrimes(items[..handled]))
      ensures Stale() == WorkerBuffer(items, acks, handled, old(Stale()))
    {
      ghost var start := sent;
      ghost var stale := Stale();
      ghost var stops := AckMissings(items, acks);
      ghost var outcome := WorkerOutcome(items, acks);
      handled, violated := 0, false;
      assert items[..0] == [];
      while handled < |items| && !violated
        invariant handled <= |items| && Valid()
        invariant sent == start + PrimeReports(ReportedPrimes(items[..handled]))
        invariant outcome == if violated then RunEnd(handled, true) else FirstStop(stops, handled)
        invariant Stale() == WorkerBuffer(items, acks, handled, stale)
      {
        FirstStopStep(stops, handled);
        WorkerReportsSnoc(start, items, handled);
        var outcome := WorkerStep(items, acks, handled);
        assert Stale() == WorkerBuffer(items, acks, handled + 1, stale);
        violated := outcome == AckMismatch;
        handled := handled + 1;
      }
    }
  }
}
