/** The measurement methods of sysoff.c, the dispatcher `sysoff_measure` and
    the capability prober `sysoff_probe`.

    The device behind the file descriptor is modelled by the class `Device`:
    the answer it gives to each request is fixed when it is built, and every
    request issued to it is appended to `log`, so that contracts can say which
    requests an operation makes. The caller's out-pointers `result`, `ts` and
    `delay` are the fields of a `Measurement`. */
module Sysoff {
  import opened TimeCodec
  import opened Selector

  /** Method ids and the failure code returned by the samplers and the prober. */
  const RunTimeMissing: int := -1
  const MethodCross: int := 0
  const MethodPrecise: int := 1
  const MethodExtended: int := 2
  const MethodBasic: int := 3
  const MethodLast: int := 4

  /** Largest sample count the kernel accepts in one offset query. */
  const PtpMaxSamples: int := 25

  /** Size of the static read buffer of the Cross sampler. */
  const BufSize: int := 4096

  type Positive = x: int | x > 0 witness 1

  /** `sizeof(struct ptp_extts_event_cross)`: fixed by the kernel ABI and left
      unspecified here beyond being positive. */
  const EventSize: Positive

  datatype Option<T> = None | Some(value: T)

  /** The two clock times a successful PTP_SYS_OFFSET_PRECISE query fills in. */
  datatype PreciseReply = PreciseReply(device: ClockTime, sysRealtime: ClockTime)

  /** One record of the event stream, its flags word decoded: `crossValid` is
      the PTP_EVENT_CROSS bit, `crossDelay` is PTP_EVENT_CROSS_DELAY(flags). */
  datatype CrossEvent = CrossEvent(t: ClockTime, tstamp: int, crossValid: bool, crossDelay: int)

  /** What `read` on the event stream gives: its return value and the
      complete records it placed at the front of the buffer. */
  datatype ReadReply = ReadReply(ret: int, records: seq<CrossEvent>) {
    predicate WellFormed() {
      ret <= BufSize && (ret >= 0 ==> |records| == ret / EventSize)
    }
  }

  /** The requests the core issues on the device's file descriptor. */
  datatype Request =
    | PreciseRequest
    | ExtendedRequest(nSamples: int)
    | BasicRequest(nSamples: int)
    | CrossTsRequest(period: ClockTime)
    | PollEvents
    | ReadEvents

  /** A device whose answers are fixed: `None` stands for a failing ioctl. */
  class Device {
    const precise: Option<PreciseReply>
    const pollRet: int
    const readReply: ReadReply
    const armsCross: bool
    const extended: Option<seq<ClockTime>>
    const basic: Option<seq<ClockTime>>
    var log: seq<Request>

    constructor (precise: Option<PreciseReply>, pollRet: int, readReply: ReadReply, armsCross: bool,
                 extended: Option<seq<ClockTime>>, basic: Option<seq<ClockTime>>)
      ensures this.precise == precise && this.pollRet == pollRet && this.readReply == readReply
      ensures this.armsCross == armsCross && this.extended == extended && this.basic == basic
      ensures log == []
    {
      this.precise, this.pollRet, this.readReply := precise, pollRet, readReply;
      this.armsCross, this.extended, this.basic := armsCross, extended, basic;
      log := [];
    }

    /** The answers a measurement by `id` uses are consistent with a query
        for `nSamples` samples: a read never overruns the buffer, and a
        successful offset query holds every sample the selector reads. */
    predicate Answers(id: int, nSamples: int) {
      (id == MethodCross ==> readReply.WellFormed()) &&
      (id == MethodExtended && extended.Some? ==> Span(true, nSamples) <= |extended.value|) &&
      (id == MethodBasic && basic.Some? ==> Span(false, nSamples) <= |basic.value|)
    }

    /** ioctl PTP_SYS_OFFSET_PRECISE */
    method QueryPrecise() returns (reply: Option<PreciseReply>)
      modifies this
      ensures reply == precise && log == old(log) + [PreciseRequest]
    {
      reply := precise;
      log := log + [PreciseRequest];
    }

    /** ioctl PTP_SYS_OFFSET_EXTENDED */
    method QueryExtended(nSamples: int) returns (reply: Option<seq<ClockTime>>)
      modifies this
      ensures reply == extended && log == old(log) + [ExtendedRequest(nSamples)]
    {
      reply := extended;
      log := log + [ExtendedRequest(nSamples)];
    }

    /** ioctl PTP_SYS_OFFSET */
    method QueryBasic(nSamples: int) returns (reply: Option<seq<ClockTime>>)
      modifies this
      ensures reply == basic && log == old(log) + [BasicRequest(nSamples)]
    {
      reply := basic;
      log := log + [BasicRequest(nSamples)];
    }

    /** ioctl PTP_CROSSTS_REQUEST */
    method RequestCrossTs(period: ClockTime) returns (ok: bool)
      modifies this
      ensures ok == armsCross && log == old(log) + [CrossTsRequest(period)]
    {
      ok := armsCross;
      log := log + [CrossTsRequest(period)];
    }

    /** poll with a zero timeout */
    method Poll() returns (ret: int)
      modifies this
      ensures ret == pollRet && log == old(log) + [PollEvents]
    {
      ret := pollRet;
      log := log + [PollEvents];
    }

    /** read of at most BufSize bytes from the event stream */
    method Read() returns (reply: ReadReply)
      modifies this
      ensures reply == readReply && log == old(log) + [ReadEvents]
    {
      reply := readReply;
      log := log + [ReadEvents];
    }
  }

  /** The caller's `result`, `ts` and `delay` variables. */
  class Measurement {
    var result: int
    var ts: int
    var delay: int

    constructor ()
    {
    }
  }

  /** Result of the Precise method: the system clock minus the device clock,
      valid at the system-clock reading, with no bracket uncertainty. */
  function PreciseReading(p: PreciseReply): (r: Reading)
    ensures r.ts == ToNanoseconds(p.sysRealtime)
    ensures r.ts - r.offset == ToNanoseconds(p.device)
    ensures r.delay == 0
  {
    var sys := ToNanoseconds(p.sysRealtime);
    Reading(sys - ToNanoseconds(p.device), sys, 0)
  }

  lemma ReadCount(ret: int)
    requires ret >= EventSize
    ensures ret / EventSize >= 1
  {
  }

  /** Result of the Cross method for a poll result and a read: missing when
      nothing is ready, the read fails or delivers less than one record, or the
      last complete record lacks the cross-timestamp flag; otherwise the
      reading of that last record. */
  function CrossReading(pollRet: int, rd: ReadReply): (r: Option<Reading>)
    requires rd.WellFormed()
    ensures r.Some? <==> pollRet >= 1 && rd.ret >= EventSize && rd.records[|rd.records| - 1].crossValid
    ensures r.Some? ==> r.value.ts == ToNanoseconds(rd.records[|rd.records| - 1].t)
    ensures r.Some? ==> r.value.ts - r.value.offset == rd.records[|rd.records| - 1].tstamp
    ensures r.Some? ==> r.value.delay == rd.records[|rd.records| - 1].crossDelay
  {
    if pollRet < 1 then None
    else if rd.ret < 0 then None
    else if rd.ret < EventSize then None
    else
      ReadCount(rd.ret);
      var e := rd.records[rd.ret / EventSize - 1];
      if !e.crossValid then None
      else Some(Reading(ToNanoseconds(e.t) - e.tstamp, ToNanoseconds(e.t), e.crossDelay))
  }

  /** The reading a measurement by method `id` yields, or None when that
      method reports itself missing. */
  function Sampled(dev: Device, id: int, nSamples: int): Option<Reading>
    requires dev.Answers(id, nSamples)
  {
    if id == MethodCross then CrossReading(dev.pollRet, dev.readReply)
    else if id == MethodPrecise then
      (if dev.precise.None? then None else Some(PreciseReading(dev.precise.value)))
    else if id == MethodExtended then
      (if dev.extended.None? then None else Some(Selection(Samples(dev.extended.value, true, nSamples))))
    else if id == MethodBasic then
      (if dev.basic.None? then None else Some(Selection(Samples(dev.basic.value, false, nSamples))))
    else None
  }

  /** The requests a measurement by method `id` issues. */
  function MeasureRequests(dev: Device, id: int, nSamples: int): seq<Request> {
    if id == MethodCross then (if dev.pollRet < 1 then [PollEvents] else [PollEvents, ReadEvents])
    else if id == MethodPrecise then [PreciseRequest]
    else if id == MethodExtended then [ExtendedRequest(nSamples)]
    else if id == MethodBasic then [BasicRequest(nSamples)]
    else []
  }

  /** `sysoff_precise` */
  method SysoffPrecise(dev: Device, out: Measurement) returns (status: int)
    modifies dev, out`result, out`ts
    ensures dev.log == old(dev.log) + [PreciseRequest]
    ensures dev.precise.None? ==> status == RunTimeMissing && out.result == old(out.result) && out.ts == old(out.ts)
    ensures dev.precise.Some? ==>
      status == MethodPrecise &&
      out.result == PreciseReading(dev.precise.value).offset && out.ts == PreciseReading(dev.precise.value).ts
  {
    var pso := dev.QueryPrecise();
    if pso.None? {
      return RunTimeMissing;
    }
    out.result := ToNanoseconds(pso.value.sysRealtime) - ToNanoseconds(pso.value.device);
    out.ts := ToNanoseconds(pso.value.sysRealtime);
    return MethodPrecise;
  }

  /** `sysoff_cross` */
  method SysoffCross(dev: Device, out: Measurement) returns (status: int)
    requires dev.readReply.WellFormed()
    modifies dev, out
    ensures dev.log == old(dev.log) + MeasureRequests(dev, MethodCross, 0)
    ensures status == if CrossReading(dev.pollRet, dev.readReply).Some? then MethodCross else RunTimeMissing
    ensures CrossReading(dev.pollRet, dev.readReply).Some? ==>
      Reading(out.result, out.ts, out.delay) == CrossReading(dev.pollRet, dev.readReply).value
    ensures CrossReading(dev.pollRet, dev.readReply).None? ==>
      out.result == old(out.result) && out.ts == old(out.ts) && out.delay == old(out.delay)
  {
    var ret := dev.Poll();
    if ret < 1 {
      return RunTimeMissing;
    }
    var rd := dev.Read();
    if rd.ret < 0 {
      return RunTimeMissing;
    }
    if rd.ret < EventSize {
      return RunTimeMissing;
    }
    var num := rd.ret / EventSize;
    ReadCount(rd.ret);
    var event := rd.records[num - 1];
    if !event.crossValid {
      return RunTimeMissing;
    }
    out.result := ToNanoseconds(event.t) - event.tstamp;
    out.ts := ToNanoseconds(event.t);
    out.delay := event.crossDelay;
    return MethodCross;
  }

  /** `sysoff_cross_enable`: ask the device to generate cross-timestamp events
      every `period` nanoseconds. */
  method CrossEnable(dev: Device, period: int) returns (status: int)
    modifies dev
    ensures dev.log == old(dev.log) + [CrossTsRequest(FromNanoseconds(period))]
    ensures status == if dev.armsCross then MethodCross else RunTimeMissing
  {
    var ok := dev.RequestCrossTs(FromNanoseconds(period));
    if !ok {
      return RunTimeMissing;
    }
    return MethodCross;
  }

  /** `sysoff_extended` */
  method SysoffExtended(dev: Device, nSamples: int, out: Measurement) returns (status: int)
    requires dev.Answers(MethodExtended, nSamples)
    modifies dev, out
    ensures dev.log == old(dev.log) + [ExtendedRequest(nSamples)]
    ensures dev.extended.None? ==>
      status == RunTimeMissing &&
      out.result == old(out.result) && out.ts == old(out.ts) && out.delay == old(out.delay)
    ensures dev.extended.Some? ==>
      status == MethodExtended &&
      Reading(out.result, out.ts, out.delay) == Selection(Samples(dev.extended.value, true, nSamples))
  {
    var pso := dev.QueryExtended(nSamples);
    if pso.None? {
      return RunTimeMissing;
    }
    out.result, out.ts, out.delay := Estimate(pso.value, true, nSamples);
    return MethodExtended;
  }

  /** `sysoff_basic` */
  method SysoffBasic(dev: Device, nSamples: int, out: Measurement) returns (status: int)
    requires dev.Answers(MethodBasic, nSamples)
    modifies dev, out
    ensures dev.log == old(dev.log) + [BasicRequest(nSamples)]
    ensures dev.basic.None? ==>
      status == RunTimeMissing &&
      out.result == old(out.result) && out.ts == old(out.ts) && out.delay == old(out.delay)
    ensures dev.basic.Some? ==>
      status == MethodBasic &&
      Reading(out.result, out.ts, out.delay) == Selection(Samples(dev.basic.value, false, nSamples))
  {
    var pso := dev.QueryBasic(nSamples);
    if pso.None? {
      return RunTimeMissing;
    }
    out.result, out.ts, out.delay := Estimate(pso.value, false, nSamples);
    return MethodBasic;
  }

  /** `sysoff_measure`: run the sampler of method `id`. A success returns the
      method id and stores the reading; a failure returns RunTimeMissing and
      leaves `result` and `ts` alone, with `delay` zeroed for Cross and
      Precise. */
  method Measure(dev: Device, id: int, nSamples: int, out: Measurement) returns (status: int)
    requires dev.Answers(id, nSamples)
    modifies dev, out
    ensures dev.log == old(dev.log) + MeasureRequests(dev, id, nSamples)
    ensures status == if Sampled(dev, id, nSamples).Some? then id else RunTimeMissing
    ensures Sampled(dev, id, nSamples).Some? ==>
      Reading(out.result, out.ts, out.delay) == Sampled(dev, id, nSamples).value
    ensures Sampled(dev, id, nSamples).None? ==>
      out.result == old(out.result) && out.ts == old(out.ts) &&
      out.delay == if id == MethodCross || id == MethodPrecise then 0 else old(out.delay)
  {
    if id == MethodCross {
      out.delay := 0;
      status := SysoffCross(dev, out);
    } else if id == MethodPrecise {
      out.delay := 0;
      status := SysoffPrecise(dev, out);
    } else if id == MethodExtended {
      status := SysoffExtended(dev, nSamples, out);
    } else if id == MethodBasic {
      status := SysoffBasic(dev, nSamples, out);
    } else {
      status := RunTimeMissing;
    }
  }

  /** A measurement by method `id` succeeds on this device. */
  predicate Works(dev: Device, id: int, nSamples: int)
    requires dev.Answers(id, nSamples)
  {
    Sampled(dev, id, nSamples).Some?
  }

  /** The requests of measurements by the methods `lo` up to, but not
      including, `hi`, in that order. */
  function Attempts(dev: Device, nSamples: int, lo: int, hi: int): seq<Request>
    decreases hi - lo
  {
    if hi <= lo then [] else Attempts(dev, nSamples, lo, hi - 1) + MeasureRequests(dev, hi - 1, nSamples)
  }

  /** Measurements by methods after Cross never touch the event stream. */
  lemma {:induction false} AttemptsAvoidEvents(dev: Device, nSamples: int, lo: int, hi: int)
    requires MethodCross < lo
    ensures forall r :: r in Attempts(dev, nSamples, lo, hi) ==> r != PollEvents && r != ReadEvents
  {
    if lo < hi {
      AttemptsAvoidEvents(dev, nSamples, lo, hi - 1);
    }
  }

  /** `sysoff_probe`: pick the method to measure with. Too many samples are
      refused before the device is touched; if cross-timestamping can be armed
      (with a 1 ms period) Cross is chosen without a measurement; otherwise
      the first of Precise, Extended and Basic whose measurement succeeds. */
  method Probe(dev: Device, nSamples: int) returns (m: int)
    requires nSamples <= PtpMaxSamples ==> dev.Answers(MethodExtended, nSamples) && dev.Answers(MethodBasic, nSamples)
    modifies dev
    ensures nSamples > PtpMaxSamples ==> m == RunTimeMissing && dev.log == old(dev.log)
    ensures nSamples <= PtpMaxSamples && dev.armsCross ==>
      m == MethodCross && dev.log == old(dev.log) + [CrossTsRequest(ClockTime(0, 1_000_000))]
    ensures nSamples <= PtpMaxSamples && !dev.armsCross ==>
      (m == RunTimeMissing || MethodCross < m < MethodLast) &&
      (m != RunTimeMissing ==> Works(dev, m, nSamples)) &&
      (forall j :: MethodCross < j < MethodLast && (m == RunTimeMissing || j < m) ==> !Works(dev, j, nSamples)) &&
      dev.log == old(dev.log) + [CrossTsRequest(ClockTime(0, 1_000_000))] +
                 Attempts(dev, nSamples, MethodCross + 1, if m == RunTimeMissing then MethodLast else m + 1)
    ensures forall i :: |old(dev.log)| <= i < |dev.log| ==> dev.log[i] != PollEvents && dev.log[i] != ReadEvents
  {
    var period := 1 * NsPerMsec;
    if nSamples > PtpMaxSamples {
      return RunTimeMissing;
    }
    OneMillisecond();
    var enabled := CrossEnable(dev, period);
    if enabled >= 0 {
      return MethodCross;
    }
    ghost var armed := dev.log;
    var junk := new Measurement();
    var i := MethodCross + 1;
    while i < MethodLast
      invariant MethodCross + 1 <= i <= MethodLast
      invariant forall j :: MethodCross < j < i ==> !Works(dev, j, nSamples)
      invariant dev.log == armed + Attempts(dev, nSamples, MethodCross + 1, i)
    {
      var status := Measure(dev, i, nSamples, junk);
      if status >= 0 {
        AttemptsAvoidEvents(dev, nSamples, MethodCross + 1, i + 1);
        return i;
      }
      i := i + 1;
    }
    AttemptsAvoidEvents(dev, nSamples, MethodCross + 1, MethodLast);
    return RunTimeMissing;
  }

  /** Of several records delivered by one read, only the last complete one
      decides the Cross result; earlier ones are stale. */
  lemma CrossUsesLastRecord(pollRet: int, ret: int, stale: seq<CrossEvent>, e: CrossEvent)
    requires pollRet >= 1
    requires ReadReply(ret, stale + [e]).WellFormed()
    requires ret >= 0
    ensures CrossReading(pollRet, ReadReply(ret, stale + [e])) ==
            if e.crossValid then Some(Reading(ToNanoseconds(e.t) - e.tstamp, ToNanoseconds(e.t), e.crossDelay))
            else None
  {
  }

  /** A Precise read with the system clock at 5 s and the device clock 50 ns
      behind gives offset 50 with no delay. */
  lemma PreciseExample()
    ensures PreciseReading(PreciseReply(ClockTime(4, 999_999_950), ClockTime(5, 0))) == Reading(50, 5_000_000_000, 0)
  {
  }
}
