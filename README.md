# System offset estimation of linuxptp (`sysoff.c`), modelled in Dafny

`sysoff.c` measures the offset between a PTP hardware clock (PHC) and the
system clock. It knows four measurement methods, in order of preference:

- **Cross**: events streamed by the device, each a hardware/system cross-timestamp.
- **Precise**: one atomic reading of both clocks.
- **Extended**: N independent brackets, each system clock, PHC, system clock.
- **Basic**: N brackets laid out so that neighbours share a system-clock reading.

`sysoff_measure` runs one method. `sysoff_probe` picks the method a device
supports. For Extended and Basic, `sysoff_estimate` keeps the sample with the
narrowest bracket.

The project has three modules, one file each:

- `TimeCodec` (`timecodec.dfy`): `pctns` and `nspct`, the conversions between
  `struct ptp_clock_time` and a nanosecond count. It also holds C's
  truncating `/` and `%`, written out because Dafny's operators are Euclidean.
- `Selector` (`selector.dfy`): `sysoff_estimate` as a loop over the array the
  device fills, with one stride parameter for both layouts. It is proved
  against `Selection`, a reference definition that picks the first index
  with the narrowest bracket. Lemmas cover optimality, the tie-break,
  appending and inserting samples, the midpoint, and the array bounds.
- `Sysoff` (`sysoff.dfy`): the four samplers, `sysoff_cross_enable`,
  `sysoff_measure` and `sysoff_probe`, written as imperative methods.
  - The file descriptor is a `Device` object. Its answer to each request is
    fixed when it is built. Each request it receives is appended to its
    `log`, so contracts can state which requests an operation issues, or that
    it issues none.
  - The caller's out-pointers `result`, `ts` and `delay` are the fields of a
    `Measurement` object. The contracts therefore also say what a failing
    call leaves untouched.

Method ids follow the enumeration in `sysoff.h`, which is not part of this
model. The values used are RUN_TIME_MISSING = -1, CROSS = 0, PRECISE = 1,
EXTENDED = 2, BASIC = 3 and LAST = 4. The code only needs this order: the
probe loop starts at CROSS + 1.

PTP_MAX_SAMPLES is 25, its value in the Linux UAPI header.
`sizeof(struct ptp_extts_event_cross)` is the constant `EventSize`, known
only to be positive.

The model follows the code on these points, where the intent might suggest
otherwise:

- The midpoint `(t2 + t1) / 2` truncates toward zero. For a negative sum
  that rounds toward the later reading, not the earlier one
  (`Selector.MidpointTruncatesTowardZero`).
- A failing Basic query returns RUN_TIME_MISSING like the other methods. It
  differs only in logging through `perror`.
- The offset signs are exactly those of the code. Precise gives
  `sys_realtime - device`. Cross gives `pctns(t) - tstamp`, valid at
  `pctns(t)`.
- `sysoff_estimate` with `n_samples < 1` still uses sample 0, which it reads
  before the loop. The model examines `max(n_samples, 1)` samples
  (`Selector.Examined`) and does not require `n_samples >= 1`.

## Model

| member | source | states |
|---|---|---|
| `TimeCodec.DivTrunc` | sysoff.c:39 | C's quotient for a positive divisor: `q*d` is the multiple of `d` nearest `a` on the side of zero. |
| `TimeCodec.RemTrunc` | sysoff.c:40 | C's remainder: `q*d + r == a`, and `r` has the sign of `a` with magnitude below `d`. |
| `TimeCodec.ToNanoseconds` | sysoff.c:32-35 | `pctns` places a normalized time inside the second its `sec` names; `FromNanoseconds` is its inverse for every count and `RoundTrip` the converse for every sign-consistent time. |
| `TimeCodec.FromNanoseconds` | sysoff.c:37-41 | `nspct` inverts `pctns` for every count. Both parts take the count's sign. A count at or after the epoch gives `sec >= 0` and `0 <= nsec < 1e9`. |
| `TimeCodec.DivTruncUnique` | sysoff.c:39-40 | Any sign-consistent decomposition `a == q*d + r` is the one C's `/` and `%` produce. |
| `TimeCodec.RoundTrip` | sysoff.c:32-41 | `nspct(pctns(t)) == t` for every normalized time with `sec >= 0`, and for every sign-consistent time. |
| `TimeCodec.RoundTripBeforeEpoch` | sysoff.c:32-41 | With the model's signed `nsec`, the round trip fails for normalized times before the epoch: `{-1, 500000000}` comes back as `{0, -500000000}`. In C the `__u32` field would hold `3794967296` instead (see the `TimeCodec.FromNanoseconds` line under Left out). |
| `TimeCodec.OneMillisecond` | sysoff.c:101 | The 1 ms period is sent to the device as `{0, 1000000}`. |
| `Selector.Span` | sysoff.c:116-140 | `sysoff_estimate` reads `3N` entries in the Extended layout and `2N+1` in the Basic layout. |
| `Selector.Samples` | sysoff.c:118-140 | The array yields exactly `max(N, 1)` samples. |
| `Selector.FirstShortest` | sysoff.c:131-149 | The selected index has a bracket no wider than any sample's, and every earlier sample's is strictly wider. |
| `Selector.Selection` | sysoff.c:127-152 | The delay is the minimum bracket width. The reading (midpoint offset, midpoint, width) comes from a sample attaining it, and no earlier sample attains it. |
| `Selector.Estimate` | sysoff.c:110-153 | The scan with strict `<` returns exactly `Selection` of the samples in the chosen layout. |
| `Selector.FirstShortestUnique` | sysoff.c:144-148 | Only one index is the first shortest, so the strict comparison makes the choice deterministic. |
| `Selector.AppendNotNarrower` | sysoff.c:144-148 | Appending a sample whose bracket is not narrower than the selected one leaves the result unchanged. |
| `Selector.AppendNarrower` | sysoff.c:144-148 | Appending a strictly narrower sample makes that sample's reading the result. |
| `Selector.InsertWider` | sysoff.c:131-149 | Inserting a strictly wider sample at any position leaves the result unchanged. |
| `Selector.MidpointWithinBracket` | sysoff.c:128 | The truncated midpoint lies between the two system-clock readings, in either order. |
| `Selector.MidpointTruncatesTowardZero` | sysoff.c:142 | `(0 + -3) / 2` is `-1`, not `-2`: the midpoint rounds toward zero. |
| `Selector.SharedBoundary` | sysoff.c:123-125 | In the Basic layout, sample `i`'s closing reading is sample `i+1`'s opening reading. |
| `Selector.SamplesWithinSpan` | sysoff.c:118-140 | The samples depend only on the first `Span` entries of the array. |
| `Selector.ExtendedExample` | sysoff.c:118-152 | Brackets `(100,150,300)` and `(1000,1040,1100)` give offset 10, timestamp 1050 and delay 100. |
| `Selector.BasicExample` | sysoff.c:122-152 | Readings `0,10,20,35,50` give two candidates, `(0,10,20)` and `(20,35,50)`. The first wins, giving offset 0, timestamp 10 and delay 20. |
| `Sysoff.Device.QueryPrecise` | sysoff.c:47 | The PTP_SYS_OFFSET_PRECISE ioctl returns the device's reply, or `None` for a failure, and is logged. |
| `Sysoff.Device.QueryExtended` | sysoff.c:161 | The PTP_SYS_OFFSET_EXTENDED ioctl returns the filled array or `None`, and is logged with `n_samples`. |
| `Sysoff.Device.QueryBasic` | sysoff.c:175 | The PTP_SYS_OFFSET ioctl returns the filled array or `None`, and is logged with `n_samples`. |
| `Sysoff.Device.RequestCrossTs` | sysoff.c:102 | The PTP_CROSSTS_REQUEST ioctl succeeds or fails, and is logged with its period. |
| `Sysoff.Device.Poll` | sysoff.c:64 | The zero-timeout `poll` returns the device's fixed result and is logged. |
| `Sysoff.Device.Read` | sysoff.c:70 | The `read` of the event stream returns a byte count and the complete records, and is logged. |
| `Sysoff.PreciseReading` | sysoff.c:51-52 | Precise: `ts` is the system reading, `ts - result` is the device reading, and the delay is 0. |
| `Sysoff.CrossReading` | sysoff.c:64-91 | Cross succeeds iff poll reports data, at least one whole record was read, and the last record has the cross flag. Then `ts` is `pctns` of the record's time `t`, `result` is `ts` minus its `tstamp`, and the delay is its delay field. |
| `Sysoff.SysoffPrecise` | sysoff.c:43-54 | Issues one precise query. On failure it returns missing and leaves `result` and `ts` alone. On success it stores the `PreciseReading`. |
| `Sysoff.SysoffCross` | sysoff.c:56-94 | Polls, and reads only when poll reports data. Returns CROSS and stores `CrossReading` exactly when that reading exists; otherwise the outputs are unchanged. |
| `Sysoff.CrossEnable` | sysoff.c:96-108 | Sends `nspct(period)` in one PTP_CROSSTS_REQUEST. Returns CROSS if the device arms, otherwise missing. |
| `Sysoff.SysoffExtended` | sysoff.c:155-167 | Issues one extended query. On success it stores the stride-3 `Selection`; on failure it changes no output. |
| `Sysoff.SysoffBasic` | sysoff.c:169-181 | Issues one basic query. On success it stores the overlapping stride-2 `Selection`; on failure it changes no output. |
| `Sysoff.Measure` | sysoff.c:183-199 | Returns the method id exactly when that method's reading exists, and stores the reading. On failure `result` and `ts` are unchanged and `delay` is zeroed for Cross and Precise. Unknown ids give missing with no request. |
| `Sysoff.AttemptsAvoidEvents` | sysoff.c:215-222 | Measuring with any method after Cross never polls or reads the event stream. |
| `Sysoff.Probe` | sysoff.c:201-225 | More than 25 samples: missing, with no request. Cross armed with `{0, 1000000}`: CROSS, with no measurement. Otherwise the lowest of PRECISE..BASIC that works, or missing if none does, having tried exactly the methods up to it in order. The event stream is never read. |
| `Sysoff.CrossUsesLastRecord` | sysoff.c:81-91 | With several records read, the Cross result depends only on the last complete record; stale earlier ones are ignored. |
| `Sysoff.PreciseExample` | sysoff.c:51-52 | System clock 5 s and device clock 4.99999995 s give offset 50, timestamp 5e9 and delay 0. |

## Left out

- The `ioctl`, `poll` and `read` system calls are modelled by `Device`. Its answers are fixed when it is built, so it does not model a device whose answers change between calls.
- Error numbers and the debug and warning messages (`pr_debug`, `perror`, `fprintf`) are left out. They carry no behaviour.
- The arming of periodic events by PTP_CROSSTS_REQUEST is modelled only as success or failure, plus the request's period.
- Kernel struct layouts are not modelled.
  - The buffer is not reinterpreted as bytes. A read is its byte count plus the complete records it delivered (`ReadReply`).
  - PTP_EVENT_CROSS and PTP_EVENT_CROSS_DELAY appear as the already decoded fields `crossValid` and `crossDelay` of `CrossEvent`.
- The process-wide `static char buf[4096]` becomes a per-call `ReadReply`. Records left over from an earlier call cannot be observed.
- All arithmetic is on unbounded integers. Overflow of the int64 computations (`sec * NS_PER_SEC`, `t2 + t1`, `t2 - t1`) is not modelled.
- The conversion of the int64 timestamp to the `uint64_t` out-parameter `ts` is not modelled.
- TimeCodec.FromNanoseconds: `ptp_clock_time.nsec` is modelled as a signed integer. The kernel field is a `__u32`, so a negative remainder would wrap. The only count the core converts is the positive 1 ms period.
- The Extended and Basic samplers require (`Device.Answers`) that a successful offset query holds every sample the selector reads. The kernel guarantees this with fixed-size arrays and by refusing more than 25 samples, and `sysoff_probe` only measures with `n_samples <= 25`.
