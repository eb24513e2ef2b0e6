/**
  The STAMP packet as the session-sender declares it, its big-endian wire
  image, and the four-timestamp round-trip time.

  The field list follows the Session-Reflector packet of section 4.3.1 of
  RFC 8762, except that the trailing reserved field is 15 bytes where the RFC
  has 3, so the wire image is 56 bytes rather than 44.
 */
module Packet {
  import opened GoInt
  import opened Wrappers
  import opened Ntp
  import BE = BigEndian

  /** Size of the encoded packet: 4+8+2+2+8+4+8+2+2+1+15 bytes. */
  const WIRE_SIZE: int := 56

  /** TTL written into every probe. */
  const PROBE_TTL: uint8 := 64

  type Mbz2 = s: seq<uint8> | |s| == 2 witness [0, 0]
  type Mbz15 = s: seq<uint8> | |s| == 15 witness BE.Zeros(15)

  /**
    One STAMP packet.  In a probe, `sequence`/`timestamp` are the sender's; in a
    reflected packet they are the reflector's (its sequence number and T3),
    `receiveTimestamp` is T2 and the `sender*` fields echo the probe (T1 is
    `senderTimestamp`).  The `mbz*` fields are reserved and carried as they are.
   */
  datatype StampPacket = StampPacket(
    sequence: uint32,
    timestamp: uint64,
    errorEstimate: uint16,
    mbz: Mbz2,
    receiveTimestamp: uint64,
    senderSequence: uint32,
    senderTimestamp: uint64,
    senderErrorEst: uint16,
    mbz2: Mbz2,
    senderTTL: uint8,
    mbz3: Mbz15)

  /** The error `binary.Read` reports for a short buffer. */
  datatype DecodeError =
    | EOF            // no bytes at all
    | UnexpectedEOF  // some, but fewer than WIRE_SIZE

  /**
    `ToBytes`: the fields in declaration order, each integer big-endian, the
    reserved arrays copied as stored, no padding.  Writing a fixed-size struct
    into a memory buffer cannot fail, so no error is modelled.
   */
  function ToBytes(p: StampPacket): (r: seq<uint8>)
    ensures |r| == WIRE_SIZE
  {
    BE.Encode(p.sequence, 4) + BE.Encode(p.timestamp, 8) + BE.Encode(p.errorEstimate, 2) + p.mbz
    + BE.Encode(p.receiveTimestamp, 8) + BE.Encode(p.senderSequence, 4) + BE.Encode(p.senderTimestamp, 8)
    + BE.Encode(p.senderErrorEst, 2) + p.mbz2 + [p.senderTTL] + p.mbz3
  }

  /**
    `FromBytes`: fails on fewer than WIRE_SIZE bytes, otherwise reads the fields
    from the first WIRE_SIZE bytes; reserved bytes are not checked.
   */
  function FromBytes(data: seq<uint8>): (r: Result<StampPacket, DecodeError>)
    ensures r.Failure? <==> |data| < WIRE_SIZE
    ensures |data| == 0 ==> r == Failure(EOF)
    ensures 0 < |data| < WIRE_SIZE ==> r == Failure(UnexpectedEOF)
  {
    if |data| == 0 then Failure(EOF)
    else if |data| < WIRE_SIZE then Failure(UnexpectedEOF)
    else
      BE.Widths();
      Success(StampPacket(
        BE.Decode(data[0..4]),
        BE.Decode(data[4..12]),
        BE.Decode(data[12..14]),
        data[14..16],
        BE.Decode(data[16..24]),
        BE.Decode(data[24..28]),
        BE.Decode(data[28..36]),
        BE.Decode(data[36..38]),
        data[38..40],
        data[40],
        data[41..56]))
  }

  /** Where each field sits in the wire image, and its big-endian value there. */
  lemma ToBytesLayout(p: StampPacket)
    ensures BE.Decode(ToBytes(p)[0..4]) == p.sequence
    ensures BE.Decode(ToBytes(p)[4..12]) == p.timestamp
    ensures BE.Decode(ToBytes(p)[12..14]) == p.errorEstimate
    ensures ToBytes(p)[14..16] == p.mbz
    ensures BE.Decode(ToBytes(p)[16..24]) == p.receiveTimestamp
    ensures BE.Decode(ToBytes(p)[24..28]) == p.senderSequence
    ensures BE.Decode(ToBytes(p)[28..36]) == p.senderTimestamp
    ensures BE.Decode(ToBytes(p)[36..38]) == p.senderErrorEst
    ensures ToBytes(p)[38..40] == p.mbz2
    ensures ToBytes(p)[40] == p.senderTTL
    ensures ToBytes(p)[41..56] == p.mbz3
  {
    FieldSlices(p);
    BE.Widths();
    BE.DecodeEncode(p.sequence, 4);
    BE.DecodeEncode(p.timestamp, 8);
    BE.DecodeEncode(p.errorEstimate, 2);
    BE.DecodeEncode(p.receiveTimestamp, 8);
    BE.DecodeEncode(p.senderSequence, 4);
    BE.DecodeEncode(p.senderTimestamp, 8);
    BE.DecodeEncode(p.senderErrorEst, 2);
  }

  /** Each slice of the wire image is the encoding of one field. */
  lemma FieldSlices(p: StampPacket)
    ensures ToBytes(p)[0..4] == BE.Encode(p.sequence, 4)
    ensures ToBytes(p)[4..12] == BE.Encode(p.timestamp, 8)
    ensures ToBytes(p)[12..14] == BE.Encode(p.errorEstimate, 2)
    ensures ToBytes(p)[14..16] == p.mbz
    ensures ToBytes(p)[16..24] == BE.Encode(p.receiveTimestamp, 8)
    ensures ToBytes(p)[24..28] == BE.Encode(p.senderSequence, 4)
    ensures ToBytes(p)[28..36] == BE.Encode(p.senderTimestamp, 8)
    ensures ToBytes(p)[36..38] == BE.Encode(p.senderErrorEst, 2)
    ensures ToBytes(p)[38..40] == p.mbz2
    ensures ToBytes(p)[40] == p.senderTTL
    ensures ToBytes(p)[41..56] == p.mbz3
  {
    var head := BE.Encode(p.sequence, 4) + BE.Encode(p.timestamp, 8) + BE.Encode(p.errorEstimate, 2) + p.mbz;
    var middle := BE.Encode(p.receiveTimestamp, 8) + BE.Encode(p.senderSequence, 4) + BE.Encode(p.senderTimestamp, 8);
    var tail := BE.Encode(p.senderErrorEst, 2) + p.mbz2 + [p.senderTTL] + p.mbz3;
    assert ToBytes(p) == head + middle + tail;
    assert |head| == 16 && |middle| == 20;
  }

  /**
    A packet whose reflector-side fields, error estimate and first two reserved
    arrays are all zero has 28 zero bytes between the sender's timestamp and
    the TTL byte.
   */
  lemma ZeroMiddleImage(p: StampPacket)
    requires p.errorEstimate == 0 && p.mbz == [0, 0]
    requires p.receiveTimestamp == 0 && p.senderSequence == 0 && p.senderTimestamp == 0
    requires p.senderErrorEst == 0 && p.mbz2 == [0, 0]
    ensures ToBytes(p)[12..40] == BE.Zeros(28)
  {
    var r := ToBytes(p);
    FieldSlices(p);
    BE.EncodeZero(2);
    BE.EncodeZero(4);
    BE.EncodeZero(8);
    assert [0, 0] == BE.Zeros(2);
    BE.ZerosJoin(r, 36, 38, 40);
    BE.ZerosJoin(r, 28, 36, 40);
    BE.ZerosJoin(r, 24, 28, 40);
    BE.ZerosJoin(r, 16, 24, 40);
    BE.ZerosJoin(r, 14, 16, 40);
    BE.ZerosJoin(r, 12, 14, 40);
  }

  /** Decoding an encoded packet succeeds and gives back every field, reserved ones included. */
  lemma DecodeEncoded(p: StampPacket)
    ensures FromBytes(ToBytes(p)) == Success(p)
  {
    ToBytesLayout(p);
  }

  /**
    Decoding reproduces the first WIRE_SIZE bytes exactly when re-encoded:
    nothing is normalised, not even non-zero reserved bytes.
   */
  lemma EncodeDecoded(data: seq<uint8>)
    requires |data| >= WIRE_SIZE
    ensures FromBytes(data).Success?
    ensures ToBytes(FromBytes(data).value) == data[..WIRE_SIZE]
  {
    var d := data[..WIRE_SIZE];
    assert data[0..4] == d[0..4] && data[4..12] == d[4..12] && data[12..14] == d[12..14];
    assert data[14..16] == d[14..16] && data[16..24] == d[16..24] && data[24..28] == d[24..28];
    assert data[28..36] == d[28..36] && data[36..38] == d[36..38] && data[38..40] == d[38..40];
    assert data[40] == d[40] && data[41..56] == d[41..56];
    ImageOfFields(d, FromBytes(data).value);
  }

  /** A packet whose fields are the values decoded from 56 bytes re-encodes to exactly those bytes. */
  lemma ImageOfFields(d: seq<uint8>, p: StampPacket)
    requires |d| == WIRE_SIZE
    requires p.sequence == BE.Decode(d[0..4]) && p.timestamp == BE.Decode(d[4..12])
    requires p.errorEstimate == BE.Decode(d[12..14]) && p.mbz == d[14..16]
    requires p.receiveTimestamp == BE.Decode(d[16..24]) && p.senderSequence == BE.Decode(d[24..28])
    requires p.senderTimestamp == BE.Decode(d[28..36]) && p.senderErrorEst == BE.Decode(d[36..38])
    requires p.mbz2 == d[38..40] && p.senderTTL == d[40] && p.mbz3 == d[41..56]
    ensures ToBytes(p) == d
  {
    var r := ToBytes(p);
    FieldSlices(p);
    BE.EncodeDecode(d[0..4]);
    BE.EncodeDecode(d[4..12]);
    BE.EncodeDecode(d[12..14]);
    BE.EncodeDecode(d[16..24]);
    BE.EncodeDecode(d[24..28]);
    BE.EncodeDecode(d[28..36]);
    BE.EncodeDecode(d[36..38]);
    AgreeOnFields(r, d);
  }

  /** Two 56-byte strings that agree on every field's range are equal. */
  lemma AgreeOnFields(r: seq<uint8>, d: seq<uint8>)
    requires |r| == WIRE_SIZE && |d| == WIRE_SIZE
    requires r[0..4] == d[0..4] && r[4..12] == d[4..12] && r[12..14] == d[12..14]
    requires r[14..16] == d[14..16] && r[16..24] == d[16..24] && r[24..28] == d[24..28]
    requires r[28..36] == d[28..36] && r[36..38] == d[36..38] && r[38..40] == d[38..40]
    requires r[40] == d[40] && r[41..56] == d[41..56]
    ensures r == d
  {
    assert r[40..41] == [r[40]] && d[40..41] == [d[40]];
    SlicesAgree(r, d, 0, 4, 12);
    SlicesAgree(r, d, 0, 12, 14);
    SlicesAgree(r, d, 0, 14, 16);
    SlicesAgree(r, d, 0, 16, 24);
    SlicesAgree(r, d, 0, 24, 28);
    SlicesAgree(r, d, 0, 28, 36);
    SlicesAgree(r, d, 0, 36, 38);
    SlicesAgree(r, d, 0, 38, 40);
    SlicesAgree(r, d, 0, 40, 41);
    SlicesAgree(r, d, 0, 41, 56);
    assert r == r[0..56] && d == d[0..56];
  }

  /** Two byte strings that agree on adjacent ranges agree on their union. */
  lemma SlicesAgree(a: seq<uint8>, b: seq<uint8>, i: nat, j: nat, k: nat)
    requires i <= j <= k <= |a| && k <= |b|
    requires a[i..j] == b[i..j] && a[j..k] == b[j..k]
    ensures a[i..k] == b[i..k]
  {
    assert a[i..k] == a[i..j] + a[j..k];
    assert b[i..k] == b[i..j] + b[j..k];
  }


  /** Bytes after the first WIRE_SIZE do not influence decoding. */
  lemma TrailingBytesIgnored(data: seq<uint8>, extra: seq<uint8>)
    requires |data| >= WIRE_SIZE
    ensures FromBytes(data + extra) == FromBytes(data)
  {
    var d := data + extra;
    assert d[0..4] == data[0..4] && d[4..12] == data[4..12] && d[12..14] == data[12..14];
    assert d[14..16] == data[14..16] && d[16..24] == data[16..24] && d[24..28] == data[24..28];
    assert d[28..36] == data[28..36] && d[36..38] == data[36..38] && d[38..40] == data[38..40];
    assert d[40] == data[40] && d[41..56] == data[41..56];
  }

  /** All reserved regions of a wire image are zero. */
  predicate ReservedBytesZero(r: seq<uint8>)
    requires |r| == WIRE_SIZE
  {
    forall i | 0 <= i < WIRE_SIZE :: (14 <= i < 16 || 38 <= i < 40 || 41 <= i) ==> r[i] == 0
  }

  /** All reserved arrays of a packet are zero. */
  predicate MbzZero(p: StampPacket)
  {
    (forall i :: 0 <= i < 2 ==> p.mbz[i] == 0 && p.mbz2[i] == 0)
    && (forall i :: 0 <= i < 15 ==> p.mbz3[i] == 0)
  }

  /** The encoder copies the reserved arrays: its reserved bytes are zero exactly when the packet's are. */
  lemma ReservedZeroIffMbzZero(p: StampPacket)
    ensures ReservedBytesZero(ToBytes(p)) <==> MbzZero(p)
  {
    var r := ToBytes(p);
    ToBytesLayout(p);
    if MbzZero(p) {
      forall i | 14 <= i < 16 || 38 <= i < 40 || 41 <= i < WIRE_SIZE
        ensures r[i] == 0
      {
        if i < 16 {
          assert r[i] == r[14..16][i - 14];
        } else if i < 40 {
          assert r[i] == r[38..40][i - 38];
        } else {
          assert r[i] == r[41..56][i - 41];
        }
      }
    }
    if ReservedBytesZero(r) {
      forall i | 0 <= i < 2
        ensures p.mbz[i] == 0 && p.mbz2[i] == 0
      {
        assert r[14..16][i] == r[14 + i];
        assert r[38..40][i] == r[38 + i];
      }
      forall i | 0 <= i < 15
        ensures p.mbz3[i] == 0
      {
        assert r[41..56][i] == r[41 + i];
      }
    }
  }

  /**
    `RTT`: (T4 - T1) - (T3 - T2) in nanoseconds, where T1 is the echoed send
    time, T2 the reflector's receive time, T3 the reflector's send time
    (this packet's own timestamp) and T4 the arrival time.
   */
  function RTT(p: StampPacket, t4: Instant): (rtt: int)
    ensures rtt == Sub(FromNTP(p.receiveTimestamp), FromNTP(p.senderTimestamp))
                 + Sub(t4, FromNTP(p.timestamp))
  {
    var t1 := FromNTP(p.senderTimestamp);
    var t2 := FromNTP(p.receiveTimestamp);
    var t3 := FromNTP(p.timestamp);
    Sub(t4, t1) - Sub(t3, t2)
  }

  /**
    Nothing is clamped: a negative reflector interval (T3 before T2, as
    unsynchronised clocks can give) makes the RTT larger than T4 - T1.
   */
  lemma RttNotClamped(p: StampPacket, t4: Instant)
    ensures Sub(FromNTP(p.timestamp), FromNTP(p.receiveTimestamp)) < 0
      ==> RTT(p, t4) > Sub(t4, FromNTP(p.senderTimestamp))
  {
  }

  /**
    A constant whole-second offset k of the reflector's clock, applied to both
    of its timestamps (q is p as stamped by the offset clock), does not change
    the RTT.
   */
  lemma RttIgnoresReflectorOffset(p: StampPacket, q: StampPacket, t4: Instant, k: int)
    requires q.receiveTimestamp == p.receiveTimestamp + k * TWO_32
    requires q.timestamp == p.timestamp + k * TWO_32
    requires q.senderTimestamp == p.senderTimestamp
    ensures RTT(q, t4) == RTT(p, t4)
  {
    ShiftSeconds(p.receiveTimestamp, k);
    ShiftSeconds(p.timestamp, k);
    var t2, t3 := FromNTP(p.receiveTimestamp), FromNTP(p.timestamp);
    var t2', t3' := FromNTP(q.receiveTimestamp), FromNTP(q.timestamp);
    assert UnixNanos(t2') == UnixNanos(t2) + k * NANOS_PER_SECOND;
    assert UnixNanos(t3') == UnixNanos(t3) + k * NANOS_PER_SECOND;
    assert Sub(t3', t2') == Sub(t3, t2);
  }

  /**
    Worked example: T1 = 0, T2 = 10 ms, T3 = 12 ms (all NTP-encoded from the
    Unix epoch) and T4 = 25 ms give an RTT of exactly 23 ms.  T2 and T3 each
    lose a nanosecond in the NTP round trip, and the losses cancel.
   */
  lemma RttExample()
    ensures
      var zero := [0, 0];
      var p := StampPacket(1, ToNTP(Instant(0, 12_000_000)), 0, zero,
                           ToNTP(Instant(0, 10_000_000)), 0, ToNTP(Instant(0, 0)), 0, zero,
                           PROBE_TTL, BE.Zeros(15));
      RTT(p, Instant(0, 25_000_000)) == 23_000_000
  {
    SubSecondVector(Instant(0, 0), 0);
    SubSecondVector(Instant(0, 10_000_000), 9_999_999);
    SubSecondVector(Instant(0, 12_000_000), 11_999_999);
  }
}
