/**
  The session-sender's exchange, without sockets or clocks: a send phase that
  numbers and records probes, and a receive phase that folds over what the
  socket delivered, matching each reflected packet to a pending probe by its
  echoed sequence number.
 */
module Sender {
  import opened GoInt
  import opened Wrappers
  import opened Ntp
  import opened Packet
  import BE = BigEndian
  import Statistics

  /** One read returns at most this many bytes: the size of the receive buffer. */
  const READ_BUFFER_SIZE: int := 1500

  /**
    The probe numbered `sequence`, stamped with its local send time T1: TTL 64
    and every other field zero.
   */
  function Probe(sequence: uint32, t1: Instant): (p: StampPacket)
    ensures p.sequence == sequence && p.timestamp == ToNTP(t1) && p.senderTTL == PROBE_TTL
    ensures p.errorEstimate == 0 && p.receiveTimestamp == 0 && p.senderSequence == 0
    ensures p.senderTimestamp == 0 && p.senderErrorEst == 0
    ensures MbzZero(p)
  {
    StampPacket(sequence, ToNTP(t1), 0, [0, 0], 0, 0, 0, 0, [0, 0], PROBE_TTL, BE.Zeros(15))
  }

  /**
    The wire image of a probe: the sequence number in bytes 0-3, T1 in bytes
    4-11, the TTL 64 in byte 40, and zeros everywhere else.
   */
  lemma ProbeWireImage(sequence: uint32, t1: Instant)
    ensures BE.Decode(ToBytes(Probe(sequence, t1))[0..4]) == sequence
    ensures BE.Decode(ToBytes(Probe(sequence, t1))[4..12]) == ToNTP(t1)
    ensures ToBytes(Probe(sequence, t1))[12..40] == BE.Zeros(28)
    ensures ToBytes(Probe(sequence, t1))[40] == 64
    ensures ToBytes(Probe(sequence, t1))[41..56] == BE.Zeros(15)
  {
    var p := Probe(sequence, t1);
    var r := ToBytes(p);
    ToBytesLayout(p);
    ZeroMiddleImage(p);
    BE.EncodeZero(15);
  }

  /**
    The send phase for `count` probes, where `clock[i]` is the local time read
    just before probe i is built.  Probe i is recorded as pending under key i
    before it is serialised, and the datagram is handed to the socket; a write
    error is only logged, so it changes nothing here.  Returns the pending map
    and the datagrams written, in order.
   */
  method SendPhase(count: nat, clock: seq<Instant>) returns (pending: map<uint32, Instant>, wire: seq<seq<uint8>>)
    requires count <= TWO_32
    requires |clock| == count
    ensures forall k: int :: k in pending <==> 0 <= k < count
    ensures |pending| == count
    ensures forall k: uint32 :: k in pending ==> pending[k] == clock[k]
    ensures pending == SentKeys(count, clock)
    ensures |wire| == count
    ensures forall i :: 0 <= i < count ==> wire[i] == ToBytes(Probe(i, clock[i]))
  {
    pending := map[];
    wire := [];
    var i := 0;
    while i < count
      invariant 0 <= i <= count
      invariant pending == SentKeys(i, clock)
      invariant |wire| == i
      invariant forall j :: 0 <= j < i ==> wire[j] == ToBytes(Probe(j, clock[j]))
    {
      var sequence: uint32 := i;
      var t1 := clock[i];
      var packet := Probe(sequence, t1);
      SentKeysStep(i, clock);
      pending := pending[sequence := t1];
      var bytes := ToBytes(packet);
      wire := wire + [bytes];
      i := i + 1;
    }
    RangeKeysSize(pending, count);
  }

  /** The pending map after the first n probes: key i holds clock[i]. */
  function SentKeys(n: nat, clock: seq<Instant>): (m: map<uint32, Instant>)
    requires n <= |clock| && n <= TWO_32
    ensures forall k: int :: k in m <==> 0 <= k < n
    ensures forall k: uint32 :: k in m ==> m[k] == clock[k]
  {
    map k: uint32 | k < n :: clock[k]
  }

  /** Recording probe n extends the pending map of the first n probes by key n. */
  lemma SentKeysStep(n: nat, clock: seq<Instant>)
    requires n < |clock| && n < TWO_32
    ensures SentKeys(n, clock)[n := clock[n]] == SentKeys(n + 1, clock)
  {
  }

  /** A map whose keys are exactly 0 .. n-1 has n entries. */
  lemma {:induction false} RangeKeysSize(m: map<uint32, Instant>, n: nat)
    requires n <= TWO_32
    requires forall k: int :: k in m <==> 0 <= k < n
    ensures |m| == n
  {
    if n == 0 {
      assert m.Keys == {};
    } else {
      var last: uint32 := n - 1;
      var m' := m - {last};
      assert m'.Keys == m.Keys - {last};
      RangeKeysSize(m', n - 1);
    }
  }

  /** What one blocking read on the socket produced. */
  datatype Event =
    | Timeout                                          // the receive deadline passed
    | ReadError                                        // any other read failure
    | Datagram(payload: seq<uint8>, arrival: Instant)  // a datagram, read at local time T4

  /** The receive phase's state: probes still unanswered, and RTT samples in arrival order. */
  datatype ReceiveState = ReceiveState(pending: map<uint32, Instant>, results: seq<int>)

  /** The bytes one read delivers: at most READ_BUFFER_SIZE of the datagram. */
  function ReadBuffer(payload: seq<uint8>): (r: seq<uint8>)
    ensures |r| <= READ_BUFFER_SIZE
    ensures |payload| <= READ_BUFFER_SIZE ==> r == payload
  {
    if |payload| <= READ_BUFFER_SIZE then payload else payload[..READ_BUFFER_SIZE]
  }

  /**
    Correlation of one decoded reply: if its echoed sequence number is pending,
    exactly one sample, the reply's RTT at T4, is appended and that key alone
    leaves the map; otherwise (a duplicate or unknown reply) nothing changes.
   */
  function Correlate(s: ReceiveState, reply: StampPacket, t4: Instant): (s': ReceiveState)
    ensures reply.senderSequence in s.pending ==>
      && s'.results == s.results + [RTT(reply, t4)]
      && s'.pending.Keys == s.pending.Keys - {reply.senderSequence}
    ensures reply.senderSequence !in s.pending ==> s' == s
    ensures forall k :: k in s'.pending ==> k in s.pending && s'.pending[k] == s.pending[k]
    ensures |s'.results| + |s'.pending| == |s.results| + |s.pending|
  {
    if reply.senderSequence in s.pending then
      var pending' := s.pending - {reply.senderSequence};
      assert pending'.Keys == s.pending.Keys - {reply.senderSequence};
      ReceiveState(pending', s.results + [RTT(reply, t4)])
    else
      s
  }

  /**
    The receive loop as a fold over the reads it performs.  It stops as soon
    as nothing is pending, on a timeout, or when the reads run out (the
    deadline has passed); read errors and undecodable datagrams are skipped.
   */
  function Receive(s: ReceiveState, events: seq<Event>): (r: ReceiveState)
    ensures forall k :: k in r.pending ==> k in s.pending && r.pending[k] == s.pending[k]
    ensures |s.results| <= |r.results| && r.results[..|s.results|] == s.results
    ensures |r.results| + |r.pending| == |s.results| + |s.pending|
    decreases |events|
  {
    if |s.pending| == 0 || |events| == 0 then s
    else
      match events[0]
      case Timeout => s
      case ReadError => Receive(s, events[1..])
      case Datagram(payload, t4) => Receive(Deliver(s, payload, t4), events[1..])
  }

  /**
    One datagram read at T4: decoded from the bytes read and correlated, or
    dropped, leaving the state as it was, when it does not decode.
   */
  function Deliver(s: ReceiveState, payload: seq<uint8>, t4: Instant): (s': ReceiveState)
    ensures forall k :: k in s'.pending ==> k in s.pending && s'.pending[k] == s.pending[k]
    ensures |s.results| <= |s'.results| && s'.results[..|s.results|] == s.results
    ensures |s'.results| + |s'.pending| == |s.results| + |s.pending|
    ensures |s'.results| <= |s.results| + 1
    ensures |ReadBuffer(payload)| < WIRE_SIZE ==> s' == s
  {
    match FromBytes(ReadBuffer(payload))
    case Failure(_) => s
    case Success(reply) => Correlate(s, reply, t4)
  }

  /** A read error, or a datagram too short to decode, leaves the receive phase where it was. */
  predicate IsNoise(e: Event)
  {
    e.ReadError? || (e.Datagram? && |ReadBuffer(e.payload)| < WIRE_SIZE)
  }

  /**
    Skipping noise: with or without a read error or an undecodable datagram in
    front, the receive phase ends in the same state.
   */
  lemma NoiseIsSkipped(s: ReceiveState, e: Event, rest: seq<Event>)
    requires IsNoise(e)
    ensures Receive(s, [e] + rest) == Receive(s, rest)
  {
    assert ([e] + rest)[1..] == rest;
    if |s.pending| > 0 && e.Datagram? {
      assert Deliver(s, e.payload, e.arrival) == s;
    }
  }

  /** The loop does not read once nothing is pending, nor past a timeout. */
  lemma ReceiveStops(s: ReceiveState, events: seq<Event>)
    requires |s.pending| == 0 || (|events| > 0 && events[0] == Timeout)
    ensures Receive(s, events) == s
  {
  }

  /** Nothing after a timeout is read. */
  lemma {:induction false} TimeoutEndsReceive(s: ReceiveState, before: seq<Event>, after: seq<Event>)
    requires forall i :: 0 <= i < |before| ==> before[i] != Timeout
    ensures Receive(s, before + [Timeout] + after) == Receive(s, before + [Timeout])
    decreases |before|
  {
    if |before| == 0 {
      assert (before + [Timeout] + after)[0] == Timeout;
    } else if |s.pending| > 0 {
      assert (before + [Timeout] + after)[1..] == before[1..] + [Timeout] + after;
      assert (before + [Timeout])[1..] == before[1..] + [Timeout];
      var e := before[0];
      match e
      case ReadError =>
        TimeoutEndsReceive(s, before[1..], after);
      case Datagram(payload, t4) =>
        TimeoutEndsReceive(Deliver(s, payload, t4), before[1..], after);
    }
  }

  /**
    Samples depend only on the replies and their arrival times: the send times
    stored in the pending map are used as membership keys only.
   */
  lemma {:induction false} SamplesIgnoreSendTimes(s1: ReceiveState, s2: ReceiveState, events: seq<Event>)
    requires s1.pending.Keys == s2.pending.Keys
    requires s1.results == s2.results
    ensures Receive(s1, events).results == Receive(s2, events).results
    ensures Receive(s1, events).pending.Keys == Receive(s2, events).pending.Keys
    decreases |events|
  {
    assert |s1.pending| == |s1.pending.Keys| == |s2.pending|;
    if |s1.pending| > 0 && |events| > 0 {
      match events[0]
      case Timeout =>
      case ReadError =>
        SamplesIgnoreSendTimes(s1, s2, events[1..]);
      case Datagram(payload, t4) =>
        SamplesIgnoreSendTimes(Deliver(s1, payload, t4), Deliver(s2, payload, t4), events[1..]);
    }
  }

  /**
    A reply that arrives twice for a pending probe yields exactly one sample,
    from its first arrival.
   */
  lemma DuplicateReplyCountsOnce(s: ReceiveState, reply: StampPacket, t4: Instant, t4': Instant)
    requires reply.senderSequence in s.pending
    ensures Receive(s, [Datagram(ToBytes(reply), t4), Datagram(ToBytes(reply), t4')]).results
         == s.results + [RTT(reply, t4)]
  {
    var bytes := ToBytes(reply);
    DecodeEncoded(reply);
    assert ReadBuffer(bytes) == bytes;
    var events := [Datagram(bytes, t4), Datagram(bytes, t4')];
    var s' := Correlate(s, reply, t4);
    assert Deliver(s, bytes, t4) == s';
    assert Receive(s, events) == Receive(s', events[1..]);
    assert events[1..] == [Datagram(bytes, t4')];
    assert Deliver(s', bytes, t4') == s';
    assert Receive(s', events[1..]) == s';
  }

  /**
    A whole run: send `count` probes, receive, summarise.  The count flag is
    not checked, so a count of zero or less sends nothing and receives nothing,
    yet is reported as sent.
   */
  method Exchange(count: int, clock: seq<Instant>, events: seq<Event>)
    returns (report: Statistics.Report, wire: seq<seq<uint8>>)
    requires count <= TWO_32
    requires |clock| == if count < 0 then 0 else count
    ensures |wire| == |clock|
    ensures report.sent == count
    ensures report.received <= |clock|
    ensures report.lost == count - report.received
    ensures count >= 0 ==> report.lost >= 0
    ensures count <= 0 ==> report.received == 0 && report.rtt == None
    ensures report.received == |Receive(ReceiveState(SentKeys(|clock|, clock), []), events).results|
    ensures report.rtt.Some? <==> report.received > 0
    ensures report.rtt.Some? ==>
      var samples := Receive(ReceiveState(SentKeys(|clock|, clock), []), events).results;
      && report.rtt.value.avg == Statistics.TruncDiv(Statistics.Sum(samples), |samples|)
      && report.rtt.value.min <= report.rtt.value.avg <= report.rtt.value.max
  {
    var pending;
    pending, wire := SendPhase(|clock|, clock);
    var final := Receive(ReceiveState(pending, []), events);
    report := Statistics.Analyze(count, final.results);
  }
}
