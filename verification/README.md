# STAMP session-sender: a Dafny model

This project models the core of a small Go client for STAMP, the Simple
Two-way Active Measurement Protocol of RFC 8762. The client has three
parts:

- **NTP timestamps** (`ntp.go`). These convert a wall-clock instant to
  and from the 64-bit NTP format. The high 32 bits are seconds since
  1900-01-01. The low 32 bits are a binary fraction of a second.
- **The test packet** (`packet.go`). This is a fixed struct of eleven
  fields, written and read big-endian with no padding. The packet also
  computes the round-trip time `(T4 - T1) - (T3 - T2)` from the three
  timestamps a reflector sends back.
- **The session-sender** (`cmd/stamp-sender.go`). It sends `count`
  probes and remembers each one's send time by sequence number. It then
  matches the reflector's replies against those sequence numbers until
  nothing is pending or the read deadline passes. Finally it reports
  sent, received and lost counts, and min/avg/max of the RTT samples.

The Dafny modules follow that structure:

- `GoInt`: Go's fixed-width integers and the shift, mask and OR
  operators the timestamp code uses, on unbounded `int`.
- `Ntp`: `ToNTP`, `FromNTP` and their round-trip properties.
- `BigEndian`: fixed-width big-endian encoding, used by `binary.Write` and
  `binary.Read`.
- `Packet`: the `StampPacket` datatype, its wire image, decoding and the RTT.
- `Sender`: the send phase, the receive/correlate loop and a whole run.
- `Statistics`: the summary computed over the RTT samples.
- `Wrappers`: `Option` and `Result`.

Go's behaviour is written out explicitly where it matters:

- `uint64` arithmetic wraps modulo 2^64.
- `int64(...)` reinterprets the bits as two's complement.
- `x << 32` drops the high word.
- `|` and `&` are defined bitwise and proved to coincide with `+` and `%`
  on the operands the code gives them.
- `time.Duration / n` truncates toward zero rather than flooring
  (`Statistics.TruncDiv`).

Durations are nanosecond counts (`int`).

The code is followed where the protocol description differs from it:

- The packet is 56 bytes, not the 44 bytes of section 4.3.1 of RFC 8762.
  The struct ends with a sender TTL byte and 15 reserved bytes, and
  `binary.Write` emits exactly the struct. So a 44-byte reply from an
  RFC-sized reflector does not decode: it fails with `UnexpectedEOF`.
  `Packet.FromBytes` and `Sender.Deliver` model this.
- The must-be-zero fields are written as stored, not forced to zero.
  `Packet.ReservedZeroIffMbzZero` states when the reserved bytes on the
  wire are zero.
- A datagram longer than 56 bytes is not rejected. Its trailing bytes are
  ignored (`Packet.TrailingBytesIgnored`).

## Model

| member | source | states |
|---|---|---|
| GoInt.Wrap64 | ntp.go:10 | Go's conversion to `uint64`, and its wrapping `+`, give a value in [0, 2^64) congruent to the exact result mod 2^64 |
| GoInt.Shr32 | ntp.go:19 | `x >> 32` is the high word: the largest r with r * 2^32 <= x, below 2^32 |
| GoInt.BitOr | ntp.go:14 | bitwise OR is at least each operand and at most their sum |
| GoInt.BitAnd | ntp.go:20 | bitwise AND is at most each operand |
| GoInt.OrIntoLowWord | ntp.go:14 | OR-ing a 32-bit fraction into a word whose low 32 bits are zero is addition, so the fraction lands in the low word unchanged |
| GoInt.AndLowWord | ntp.go:20 | masking with 0xFFFFFFFF keeps exactly the low 32 bits (the value mod 2^32) |
| GoInt.Shl32 | ntp.go:14 | a `uint64` shifted left by 32 has a zero low word and carries the operand's low word as its high word; the operand's high word is lost |
| GoInt.ToInt64 | ntp.go:22 | the `int64` conversion keeps the value mod 2^64 and is negative exactly when bit 63 is set |
| Ntp.Sub | packet.go:58-60 | `t.Sub(u)` is zero exactly when the instants are equal, and positive exactly when t is later (a later second, or the same second and a later nanosecond) |
| Ntp.NanosToFraction | ntp.go:11-13 | the fraction is the floor of nsec * 2^32 / 10^9: the largest f with f * 10^9 <= nsec * 2^32 |
| Ntp.FractionToNanos | ntp.go:20-21 | the nanoseconds are the floor of fraction * 10^9 / 2^32, and below 10^9 |
| Ntp.ToNTP | ntp.go:9-15 | the high word is the Unix second plus 2208988800, wrapped mod 2^32; the low word is floor(nsec * 2^32 / 10^9) |
| Ntp.NtpWords | ntp.go:10-14 | the word `(secs << 32) \| fraction` fits in 64 bits, its high word is the NTP second mod 2^32 and its low word is the floored fraction |
| Ntp.FromNTP | ntp.go:18-23 | the second is the high word minus 2208988800, as a signed value (negative before 1970); the nanoseconds are the floor of the low word * 10^9 / 2^32 |
| Ntp.SignedEraSecond | ntp.go:19-22 | for any high word, the wrapped `uint64` subtraction followed by `int64(...)` yields the exact signed difference |
| Ntp.UnixEpochVector | ntp.go:6-14 | the Unix epoch encodes as 2208988800 << 32 with a zero fraction |
| Ntp.SubSecondVector | ntp.go:9-23 | at the Unix epoch second, decoding an encoded instant gives that second and the doubly floored nanoseconds |
| Ntp.RoundTrip | ntp.go:9-23 | for every instant in NTP era 0, FromNTP(ToNTP(t)) keeps the second exactly and loses at most one nanosecond, never gaining |
| Ntp.TruncationLoss | ntp.go:13-21 | the two successive floorings lose less than one nanosecond in all: n - 1 <= n' <= n |
| Ntp.ReverseRoundTrip | ntp.go:9-23 | for every 64-bit timestamp, ToNTP(FromNTP(x)) keeps the high word and lowers the fraction by at most 5 units of 2^-32 s |
| Ntp.FractionLoss | ntp.go:13-21 | a fraction taken to nanoseconds and back loses at most 5 units |
| Ntp.ShiftSeconds | ntp.go:18-23 | adding k whole seconds to the high word adds k to the decoded second, keeps its nanoseconds, and shifts its Unix time by k * 10^9 ns |
| BigEndian.Encode | packet.go:34 | the big-endian image of x at width w, most significant byte first, is exactly w bytes long; its contents are fixed by BigEndian.DecodeEncode and BigEndian.EncodeDecode |
| BigEndian.Decode | packet.go:43 | the big-endian value of a byte string is below 256 raised to its length; that every string is the image of its value is BigEndian.EncodeDecode |
| BigEndian.DecodeEncode | packet.go:34 | the big-endian encoding of a value that fits in w bytes decodes back to that value |
| BigEndian.EncodeDecode | packet.go:43 | re-encoding a decoded byte string at its own width gives the same bytes |
| BigEndian.Widths | packet.go:18-28 | the field widths 1, 2, 4 and 8 bytes hold exactly the ranges of `byte`, `uint16`, `uint32` and `uint64` |
| BigEndian.EncodeZero | cmd/stamp-sender.go:54-57 | zero, the value of every probe field the literal leaves unset, encodes as all-zero bytes at any width |
| Packet.ToBytes | packet.go:32-38 | serialisation always succeeds and yields exactly 56 bytes |
| Packet.ToBytesLayout | packet.go:17-38 | the wire image is the eleven fields in declaration order, big-endian, at offsets 0, 4, 12, 14, 16, 24, 28, 36, 38, 40 and 41, with no padding |
| Packet.FromBytes | packet.go:41-47 | decoding fails exactly when fewer than 56 bytes are given: with EOF on an empty slice and UnexpectedEOF on a short one |
| Packet.DecodeEncoded | packet.go:32-47 | every packet survives serialisation and deserialisation unchanged |
| Packet.EncodeDecoded | packet.go:32-47 | any 56 or more bytes decode, and re-serialising the result gives back the first 56 bytes |
| Packet.TrailingBytesIgnored | packet.go:41-47 | bytes after the first 56 never affect the decoded packet |
| Packet.ReservedZeroIffMbzZero | packet.go:21-28 | the wire image's reserved bytes (14-15, 38-39, 41-55) are all zero if and only if the packet's three must-be-zero fields are |
| Packet.ImageOfFields | packet.go:32-47 | a packet holding the values decoded from 56 bytes re-encodes to exactly those bytes |
| Packet.FieldSlices | packet.go:17-38 | each byte range of the wire image is the big-endian encoding of one field, or a reserved array copied as stored |
| Packet.ZeroMiddleImage | packet.go:20-26 | a packet whose error estimates, reflector timestamps, echoed sequence and first two reserved arrays are zero has 28 zero bytes at offsets 12-39 |
| Packet.RTT | packet.go:52-66 | the RTT (T4 - T1) - (T3 - T2) equals the outbound leg T2 - T1 plus the return leg T4 - T3, each timestamp decoded from NTP |
| Packet.RttNotClamped | packet.go:52-66 | the RTT is not clamped: when the reflector's T3 - T2 is negative, the RTT exceeds T4 - T1 |
| Packet.RttIgnoresReflectorOffset | packet.go:52-66 | shifting both reflector timestamps by the same whole number of seconds leaves the RTT unchanged |
| Packet.RttExample | packet.go:52-66 | T1 = 0, T2 = 10 ms, T3 = 12 ms (NTP-encoded) and T4 = 25 ms give an RTT of exactly 23 ms |
| Sender.Probe | cmd/stamp-sender.go:53-61 | a probe carries its sequence number, the NTP form of T1 as its timestamp and TTL 64; every other field, reserved arrays included, is zero |
| Sender.ProbeWireImage | cmd/stamp-sender.go:53-65 | a probe's 56 bytes are its sequence number, the NTP send time, 28 zero bytes, the TTL byte 64 and 15 zero bytes |
| Sender.SendPhase | cmd/stamp-sender.go:52-76 | after sending, the pending map has exactly the keys 0 .. count-1, each mapped to its probe's send time, and datagram i is the wire image of probe i |
| Sender.SentKeys | cmd/stamp-sender.go:47-62 | the map built by the first n iterations holds exactly the keys 0 .. n-1, each with its own send time |
| Sender.RangeKeysSize | cmd/stamp-sender.go:47-62 | a map whose keys are exactly 0 .. n-1 has n entries |
| Sender.ReadBuffer | cmd/stamp-sender.go:82-83 | a read returns at most 1500 bytes, and a datagram that fits is returned whole |
| Sender.Correlate | cmd/stamp-sender.go:108-119 | a reply echoing a pending sequence number appends exactly its RTT and removes only that key; any other reply changes nothing |
| Sender.Deliver | cmd/stamp-sender.go:93-119 | one datagram never adds pending keys, only appends samples, appends at most one sample, and moves exactly as many keys out of pending as samples it appends; a datagram too short to decode leaves the state unchanged |
| Sender.Receive | cmd/stamp-sender.go:80-120 | the loop only removes pending keys, only appends samples, and every sample removes exactly one pending key |
| Sender.NoiseIsSkipped | cmd/stamp-sender.go:84-106 | a non-timeout read error, or a datagram that does not decode, is skipped without effect |
| Sender.ReceiveStops | cmd/stamp-sender.go:81-88 | the loop does nothing once no probe is pending, or when the next read times out |
| Sender.TimeoutEndsReceive | cmd/stamp-sender.go:84-88 | nothing after the first timeout affects the result |
| Sender.SamplesIgnoreSendTimes | cmd/stamp-sender.go:108-116 | which samples are collected, and which keys remain, depends only on the pending keys and not on the send times stored under them |
| Sender.DuplicateReplyCountsOnce | cmd/stamp-sender.go:108-119 | a reply that arrives twice contributes one sample, measured at its first arrival |
| Sender.Exchange | cmd/stamp-sender.go:52-153 | a run reports the count flag as sent and receives at most max(count, 0) replies; lost is sent minus received, never negative for a non-negative count, and a count of zero or less receives nothing; there is an RTT summary exactly when a reply was received, with the truncated mean of the collected samples between min and max |
| Statistics.TruncDiv | cmd/stamp-sender.go:146 | `time.Duration` division truncates toward zero, for negative totals as well as positive ones |
| Statistics.TruncDivWithin | cmd/stamp-sender.go:146 | a total between lo * n and hi * n divides to a quotient between lo and hi |
| Statistics.SumWithin | cmd/stamp-sender.go:137-145 | samples between lo and hi sum to between lo * n and hi * n |
| Statistics.Summarize | cmd/stamp-sender.go:132-153 | min and max are samples that bound every sample, avg is the truncated mean and lies between them, and sumOfSquares is the sum of squared deviations from avg |
| Statistics.SumSquaredDeviations | cmd/stamp-sender.go:149-153 | the accumulated sum of squared deviations is that sum, and it is non-negative |
| Statistics.Analyze | cmd/stamp-sender.go:124-153 | sent, received and lost are the count, the number of samples and their difference (negative when the count is); there is an RTT summary if and only if at least one sample was received, whose min and max are samples bounding all samples, whose avg is the truncated mean between them, and whose sumOfSquares is the sum of squared deviations from avg |
| Statistics.ConstantSamples | cmd/stamp-sender.go:137-153 | n equal samples v sum to n * v and have no deviation from v |
| Statistics.EqualSamplesHaveNoSpread | cmd/stamp-sender.go:137-153 | when every sample is the same value, the average is that value and the sum of squares is zero |

## Left out

- Command-line flags, address resolution, `DialUDP` and `Close` are not
  modelled. The run starts from `count`; the target, port, interval and
  timeout only steer I/O. `DefaultPort` is not used by the modelled code.
- Socket I/O is replaced by parameters:
  - The probes' send times (`time.Now()`) are a `clock` sequence.
  - The reads are an `Event` sequence, each a timeout, another read error
    or a datagram with its arrival time T4.
  - The end of that sequence stands for the read deadline.
  - `time.Sleep` between sends has no observable effect in the model.
- Printing, `log` output, the hex dump and `binary.Size` are output only,
  so they are not modelled.
- A failed `conn.Write` is only logged and does not change the state. The
  send phase therefore returns the datagrams handed to `Write`.
- The serialise-error branch of the send loop is not modelled.
  `binary.Write` of this fixed-size struct into a `bytes.Buffer` cannot
  fail, so `Packet.ToBytes` is total and that branch is unreachable.
- The loss percentage and the jitter are not modelled, because they need
  floating point and `math.Sqrt`. The model stops at the integer
  `sumOfSquares` they are computed from.
- Statistics.Summarize: `time.Duration` is an `int64`. The model uses
  unbounded integers, so the running `total`, `diff * diff` and
  `sumOfSquares` do not wrap on overflow as they would in Go.
- Packet.RTT: the model's durations are exact integers. Go differs in
  two places. `Time.Sub` saturates at the `int64` bounds, about 292
  years. The final `totalDuration - reflectorProcessingDuration` wraps
  modulo 2^64, so Go differs even when each difference fits but their
  difference does not, for example T4 - T1 = 200 years with
  T3 - T2 = -136 years. The model agrees with Go whenever both
  differences and the RTT lie within the `int64` range.
- Sender.SendPhase: requires `count <= 2^32`, and so does Sender.Exchange. For larger counts Go's
  `uint32(i)` wraps, and later probes overwrite earlier map entries.
- Ntp.FromNTP: `time.Unix` normalisation of out-of-range nanoseconds is
  not modelled. `FromNTP` always passes nanoseconds below 10^9, so it
  never triggers.
- Ntp.RoundTrip: holds for instants in NTP era 0 (1900 to 2036). Outside
  that era, `ToNTP` wraps the seconds mod 2^32, and `Ntp.ToNTP` states
  that wrap.
