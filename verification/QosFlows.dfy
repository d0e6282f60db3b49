/**
 One entry of the kernel's QoS flow map: a maximum-rate bucket and a guaranteed-rate bucket
 in series, with the entry's byte and packet counters.
 */
module QosFlows {
  import opened Machine
  import opened TokenBuckets
  import BucketRuns

  const QOS_MAGIC: U32 := 0x514F_5300
  const QFI_VOVR: U8 := 1
  const QFI_VIDEO: U8 := 2
  const QFI_DEFAULT: U8 := 9
  const QOS_FLOW_GBR: U8 := 0

  // What qos_enforce_traffic_shaping returns.
  const QOS_OK: int := 0
  const QOS_GBR_EXCEEDED: int := 2
  const QOS_MBR_EXCEEDED: int := 3

  /** A `struct qos_flow_key`; the padding octets are always zero. */
  datatype FlowKey = FlowKey(teid: U32, qfi: U8)

  /** The value of a `struct qos_flow_value`. */
  datatype Flow = Flow(
    magic: U32, qfi: U8, flowType: U8, priority: U8, action: U8, gbrBps: U64, mbrBps: U64,
    gbr: Bucket, mbr: Bucket, totalBytes: U64, droppedBytes: U64, shapedPackets: U64)

  predicate MbrRejects(f: Flow, len: U64, now: U64) {
    f.mbrBps > 0 && !Accepts(f.mbr, len, now)
  }

  predicate GbrApplies(f: Flow) {
    f.flowType == QOS_FLOW_GBR && f.gbrBps > 0
  }

  predicate GbrRejects(f: Flow, qfi: U8, len: U64, now: U64) {
    GbrApplies(f) && !Accepts(f.gbr, len, now) && (qfi == QFI_VIDEO || qfi == QFI_DEFAULT)
  }

  /** The verdict on a packet looked up under qfi; a rejected voice packet is let through. */
  function Verdict(f: Flow, qfi: U8, len: U64, now: U64): int {
    if f.magic != QOS_MAGIC then QOS_OK
    else if MbrRejects(f, len, now) then (if qfi == QFI_VOVR then QOS_OK else QOS_MBR_EXCEEDED)
    else if GbrRejects(f, qfi, len, now) then QOS_GBR_EXCEEDED
    else QOS_OK
  }

  function AfterPacket(f: Flow, qfi: U8, len: U64, now: U64): Flow {
    if f.magic != QOS_MAGIC then f else
    var mbr := if f.mbrBps > 0 then Consumed(f.mbr, len, now) else f.mbr;
    var charged := f.(totalBytes := Wrap64(f.totalBytes + len), mbr := mbr);
    var dropped := charged.(droppedBytes := Wrap64(f.droppedBytes + len),
                            shapedPackets := Wrap64(f.shapedPackets + 1));
    if MbrRejects(f, len, now) then dropped else
    var gbr := if GbrApplies(f) then Consumed(f.gbr, len, now) else f.gbr;
    if GbrRejects(f, qfi, len, now) then dropped.(gbr := gbr) else charged.(gbr := gbr)
  }

  /** The maximum-rate bucket, where there is one, cannot pay for the packet. */
  predicate OverMbr(f: Flow, len: U64, now: U64) {
    f.mbrBps > 0 && Refilled(f.mbr, now).tokens < 8 * len
  }

  /** The guaranteed-rate bucket, where the flow has one, cannot pay for the packet. */
  predicate OverGbr(f: Flow, len: U64, now: U64) {
    f.flowType == 0 && f.gbrBps > 0 && Refilled(f.gbr, now).tokens < 8 * len
  }

  /**
   The verdict in terms of tokens: 3 exactly when the first bucket cannot pay and the packet is not voice,
   2 exactly when only the second cannot and the QFI is 2 or 9, and 0 otherwise.
   */
  lemma VerdictIs(f: Flow, qfi: U8, len: U64, now: U64)
    requires f.magic == 0x514F_5300 && len < 0x2000_0000_0000_0000
    ensures Verdict(f, qfi, len, now) == 3 <==> OverMbr(f, len, now) && qfi != 1
    ensures Verdict(f, qfi, len, now) == 2 <==> !OverMbr(f, len, now) && OverGbr(f, len, now) && (qfi == 2 || qfi == 9)
    ensures Verdict(f, qfi, len, now) == 0 || Verdict(f, qfi, len, now) == 2 || Verdict(f, qfi, len, now) == 3
  {
    hide Refilled, Accepts;
    ConsumeIs(f.mbr, len, now);
    ConsumeIs(f.gbr, len, now);
  }

  /** A bucket after it was asked for a packet: refilled, and charged if it could pay. */
  function Asked(b: Bucket, len: U64, now: U64): Bucket
    requires len < 0x2000_0000_0000_0000
  {
    var r := Refilled(b, now);
    if r.tokens >= 8 * len then r.(tokens := r.tokens - 8 * len) else r
  }

  /**
   What a packet leaves behind: the offered octets are counted, those over the maximum rate or turned
   away are counted as dropped, each bucket is asked only if its rate applies and the packet gets
   that far, and nothing else changes.
   */
  lemma AfterPacketIs(f: Flow, qfi: U8, len: U64, now: U64)
    requires f.magic == 0x514F_5300 && len < 0x2000_0000_0000_0000
    ensures
      var dropped := OverMbr(f, len, now) || Verdict(f, qfi, len, now) == 2;
      AfterPacket(f, qfi, len, now) ==
      f.(totalBytes := Wrap64(f.totalBytes + len),
         droppedBytes := if dropped then Wrap64(f.droppedBytes + len) else f.droppedBytes,
         shapedPackets := if dropped then Wrap64(f.shapedPackets + 1) else f.shapedPackets,
         mbr := if f.mbrBps > 0 then Asked(f.mbr, len, now) else f.mbr,
         gbr := if !OverMbr(f, len, now) && f.flowType == 0 && f.gbrBps > 0 then Asked(f.gbr, len, now) else f.gbr)
  {
    hide Refilled, Accepts, Consumed, Wrap64;
    ConsumeIs(f.mbr, len, now);
    ConsumeIs(f.gbr, len, now);
  }

  /** An entry without the right magic is neither policed nor touched. */
  lemma DeadEntryIgnored(f: Flow, qfi: U8, len: U64, now: U64)
    requires f.magic != 0x514F_5300
    ensures Verdict(f, qfi, len, now) == 0 && AfterPacket(f, qfi, len, now) == f
  {
  }

  /** A `struct qos_flow_value`, updated in place under its lock. */
  class QosFlow {
    var magic: U32
    var qfi: U8
    var flowType: U8
    var priority: U8
    var action: U8
    var gbrBps: U64
    var mbrBps: U64
    const bucketGbr: TokenBucket
    const bucketMbr: TokenBucket
    var totalBytes: U64
    var droppedBytes: U64
    var shapedPackets: U64

    ghost predicate Valid() { bucketGbr != bucketMbr }

    constructor (f: Flow)
      ensures Valid() && Value() == f && fresh(bucketGbr) && fresh(bucketMbr)
    {
      magic, qfi, flowType, priority, action := f.magic, f.qfi, f.flowType, f.priority, f.action;
      gbrBps, mbrBps := f.gbrBps, f.mbrBps;
      totalBytes, droppedBytes, shapedPackets := f.totalBytes, f.droppedBytes, f.shapedPackets;
      bucketGbr := new TokenBucket(f.gbr);
      bucketMbr := new TokenBucket(f.mbr);
    }

    function Value(): Flow
      reads this, bucketGbr, bucketMbr
    {
      Flow(magic, qfi, flowType, priority, action, gbrBps, mbrBps, bucketGbr.Value(), bucketMbr.Value(),
           totalBytes, droppedBytes, shapedPackets)
    }

    /** qfi is the one in the lookup key, which decides the treatment. */
    method EnforceTrafficShaping(qfi: U8, len: U64, now: U64) returns (result: int)
      requires Valid()
      modifies this, bucketGbr, bucketMbr
      ensures result == Verdict(old(Value()), qfi, len, now)
      ensures Value() == AfterPacket(old(Value()), qfi, len, now)
    {
      hide Accepts, Consumed;
      if magic != QOS_MAGIC {
        return QOS_OK;
      }
      totalBytes := Wrap64(totalBytes + len);
      if mbrBps > 0 {
        var mbrOk := bucketMbr.Consume(len, now);
        if !mbrOk {
          droppedBytes := Wrap64(droppedBytes + len);
          shapedPackets := Wrap64(shapedPackets + 1);
          if qfi == QFI_VOVR {
            return QOS_OK;
          }
          return QOS_MBR_EXCEEDED;
        }
      }
      if flowType == QOS_FLOW_GBR && gbrBps > 0 {
        var gbrOk := bucketGbr.Consume(len, now);
        if !gbrOk {
          if qfi == QFI_VIDEO || qfi == QFI_DEFAULT {
            droppedBytes := Wrap64(droppedBytes + len);
            shapedPackets := Wrap64(shapedPackets + 1);
            return QOS_GBR_EXCEEDED;
          }
        }
      }
      return QOS_OK;
    }
  }

  // ---------- Accounting over runs of packets ----------

  type Arrivals = seq<BucketRuns.Arrival>

  function AfterPackets(f: Flow, qfi: U8, ps: Arrivals): Flow
    decreases |ps|
  {
    if ps == [] then f else AfterPackets(AfterPacket(f, qfi, ps[0].len, ps[0].now), qfi, ps[1..])
  }

  function ForwardedBytes(f: Flow, qfi: U8, ps: Arrivals): nat
    decreases |ps|
  {
    if ps == [] then 0 else
    (if Verdict(f, qfi, ps[0].len, ps[0].now) == QOS_OK then ps[0].len else 0)
    + ForwardedBytes(AfterPacket(f, qfi, ps[0].len, ps[0].now), qfi, ps[1..])
  }

  function RejectedPackets(f: Flow, qfi: U8, ps: Arrivals): nat
    decreases |ps|
  {
    if ps == [] then 0 else
    (if Verdict(f, qfi, ps[0].len, ps[0].now) != QOS_OK then 1 else 0)
    + RejectedPackets(AfterPacket(f, qfi, ps[0].len, ps[0].now), qfi, ps[1..])
  }

  /** Bytes of the packets the maximum-rate bucket turns away. */
  function OverMbrBytes(f: Flow, qfi: U8, ps: Arrivals): nat
    decreases |ps|
  {
    if ps == [] then 0 else
    (if MbrRejects(f, ps[0].len, ps[0].now) then ps[0].len else 0)
    + OverMbrBytes(AfterPacket(f, qfi, ps[0].len, ps[0].now), qfi, ps[1..])
  }

  function OfferedBytes(ps: Arrivals): nat {
    if ps == [] then 0 else ps[0].len + OfferedBytes(ps[1..])
  }

  /** Tokens taken out of the maximum-rate bucket: what each refill left minus what each packet left. */
  function MbrTokensSpent(f: Flow, qfi: U8, ps: Arrivals): int
    decreases |ps|
  {
    if ps == [] then 0 else
    var f' := AfterPacket(f, qfi, ps[0].len, ps[0].now);
    Refilled(f.mbr, ps[0].now).tokens - f'.mbr.tokens + MbrTokensSpent(f', qfi, ps[1..])
  }

  predicate ShortPackets(ps: Arrivals) {
    forall i :: 0 <= i < |ps| ==> ps[i].len < 0x2000_0000_0000_0000
  }

  /** Every offered byte is counted, and each one is either forwarded or counted as dropped. */
  lemma {:induction false} BytesConserved(f: Flow, qfi: U8, ps: Arrivals)
    requires f.magic == QOS_MAGIC && qfi != QFI_VOVR
    ensures
      var f' := AfterPackets(f, qfi, ps);
      var dropped := OfferedBytes(ps) - ForwardedBytes(f, qfi, ps);
      && dropped >= 0
      && f'.totalBytes == Wrap64(f.totalBytes + OfferedBytes(ps))
      && f'.droppedBytes == Wrap64(f.droppedBytes + dropped)
      && f'.shapedPackets == Wrap64(f.shapedPackets + RejectedPackets(f, qfi, ps))
    decreases |ps|
  {
    hide Accepts, Consumed, Wrap64;
    if ps == [] {
      WrapSmall64(f.totalBytes);
      WrapSmall64(f.droppedBytes);
      WrapSmall64(f.shapedPackets);
    } else {
      var p := ps[0];
      var f1 := AfterPacket(f, qfi, p.len, p.now);
      BytesConserved(f1, qfi, ps[1..]);
      WrapAdd64(f.totalBytes + p.len, OfferedBytes(ps[1..]));
      WrapAdd64(f.droppedBytes + p.len, OfferedBytes(ps[1..]) - ForwardedBytes(f1, qfi, ps[1..]));
      WrapAdd64(f.shapedPackets + 1, RejectedPackets(f1, qfi, ps[1..]));
    }
  }

  /** A voice flow is never rejected, yet the bytes over its maximum rate are still booked as dropped. */
  lemma {:induction false} VoiceNeverRejected(f: Flow, ps: Arrivals)
    requires f.magic == QOS_MAGIC
    ensures RejectedPackets(f, QFI_VOVR, ps) == 0
    ensures ForwardedBytes(f, QFI_VOVR, ps) == OfferedBytes(ps)
    ensures AfterPackets(f, QFI_VOVR, ps).droppedBytes
            == Wrap64(f.droppedBytes + OverMbrBytes(f, QFI_VOVR, ps))
    decreases |ps|
  {
    hide Accepts, Consumed, Wrap64;
    if ps == [] {
      WrapSmall64(f.droppedBytes);
    } else {
      var p := ps[0];
      var f1 := AfterPacket(f, QFI_VOVR, p.len, p.now);
      VoiceNeverRejected(f1, ps[1..]);
      WrapAdd64(f.droppedBytes + p.len, OverMbrBytes(f1, QFI_VOVR, ps[1..]));
    }
  }

  /** The flow can turn a packet away: by its maximum rate, or by its guaranteed rate if the QFI is one it drops. */
  predicate CanReject(f: Flow, qfi: U8) {
    qfi != QFI_VOVR && (f.mbrBps > 0 || (GbrApplies(f) && (qfi == QFI_VIDEO || qfi == QFI_DEFAULT)))
  }

  lemma CanRejectKept(f: Flow, qfi: U8, len: U64, now: U64)
    ensures CanReject(AfterPacket(f, qfi, len, now), qfi) <==> CanReject(f, qfi)
    ensures Verdict(f, qfi, len, now) != QOS_OK ==> CanReject(f, qfi)
  {
    hide Accepts, Consumed;
  }

  lemma {:induction false} UnlimitedNeverRejected(f: Flow, qfi: U8, ps: Arrivals)
    requires !CanReject(f, qfi)
    ensures RejectedPackets(f, qfi, ps) == 0
    decreases |ps|
  {
    hide CanReject, Verdict, AfterPacket;
    if ps != [] {
      CanRejectKept(f, qfi, ps[0].len, ps[0].now);
      UnlimitedNeverRejected(AfterPacket(f, qfi, ps[0].len, ps[0].now), qfi, ps[1..]);
    }
  }

  const LONGEST: U64 := 0x1FFF_FFFF_FFFF_FFFF

  /** A bucket cannot pay for the longest packet twice at one instant. */
  lemma NotTwice(b: Bucket, now: U64)
    ensures Accepts(b, LONGEST, now) ==> !Accepts(Consumed(b, LONGEST, now), LONGEST, now)
  {
    hide ToppedUp;
    assert PacketBits(LONGEST) == TWO64 - 8;
    if Accepts(b, LONGEST, now) {
      var c := Consumed(b, LONGEST, now);
      assert c.tokens < 8;
      assert Wrap64(now - now) == 0;
      assert Refilled(c, now).tokens == c.tokens;
    }
  }

  /** A live flow turns some run's packet away exactly when it can; in particular not when it has no rates. */
  lemma RejectsSomethingIff(f: Flow, qfi: U8)
    requires f.magic == QOS_MAGIC
    ensures (exists ps: Arrivals :: RejectedPackets(f, qfi, ps) > 0) <==> CanReject(f, qfi)
  {
    if CanReject(f, qfi) {
      var p := BucketRuns.Arrival(LONGEST, 1);
      var f1 := AfterPacket(f, qfi, LONGEST, 1);
      NotTwice(f.mbr, 1);
      NotTwice(f.gbr, 1);
      TwoPackets(f, qfi, p);
      assert Verdict(f, qfi, LONGEST, 1) != QOS_OK || Verdict(f1, qfi, LONGEST, 1) != QOS_OK by {
        hide Accepts, Consumed;
      }
      assert RejectedPackets(f, qfi, [p, p]) > 0;
    } else {
      forall ps: Arrivals
        ensures RejectedPackets(f, qfi, ps) == 0
      {
        UnlimitedNeverRejected(f, qfi, ps);
      }
    }
  }

  lemma TwoPackets(f: Flow, qfi: U8, p: BucketRuns.Arrival)
    ensures RejectedPackets(f, qfi, [p, p]) > 0 <==>
            Verdict(f, qfi, p.len, p.now) != QOS_OK
            || Verdict(AfterPacket(f, qfi, p.len, p.now), qfi, p.len, p.now) != QOS_OK
  {
    hide Verdict, AfterPacket;
    var f1 := AfterPacket(f, qfi, p.len, p.now);
    assert [p, p][1..] == [p] && [p][1..] == [];
    assert RejectedPackets(f1, qfi, [p]) == if Verdict(f1, qfi, p.len, p.now) != QOS_OK then 1 else 0;
  }

  /**
   With a maximum rate set, the tokens spent are exactly the bits of the packets that bucket let
   pass, including those the guaranteed-rate bucket then drops: a dropped packet is not refunded.
   */
  lemma {:induction false} MbrSpendingIsExact(f: Flow, qfi: U8, ps: Arrivals)
    requires f.magic == QOS_MAGIC && f.mbrBps > 0 && ShortPackets(ps)
    ensures MbrTokensSpent(f, qfi, ps) == 8 * (OfferedBytes(ps) - OverMbrBytes(f, qfi, ps))
    decreases |ps|
  {
    hide Accepts, Consumed, Refilled;
    if ps == [] {
    } else {
      var p := ps[0];
      BucketRuns.ConsumeSpends(f.mbr, p.len, p.now);
      MbrSpendingIsExact(AfterPacket(f, qfi, p.len, p.now), qfi, ps[1..]);
    }
  }

  /** Tokens taken out of the guaranteed-rate bucket by the packets that reach it. */
  function GbrTokensSpent(f: Flow, qfi: U8, ps: Arrivals): int
    decreases |ps|
  {
    if ps == [] then 0 else
    var f' := AfterPacket(f, qfi, ps[0].len, ps[0].now);
    (if OverMbr(f, ps[0].len, ps[0].now) then 0 else Refilled(f.gbr, ps[0].now).tokens - f'.gbr.tokens)
    + GbrTokensSpent(f', qfi, ps[1..])
  }

  /**
   On a QFI 2 or 9 flow to which the guaranteed rate applies, the second bucket is charged for exactly what
   is forwarded: it pays for every packet that leaves and for none that does not.
   */
  lemma {:induction false} GbrSpendingIsExact(f: Flow, qfi: U8, ps: Arrivals)
    requires f.magic == QOS_MAGIC && GbrApplies(f) && (qfi == QFI_VIDEO || qfi == QFI_DEFAULT) && ShortPackets(ps)
    ensures GbrTokensSpent(f, qfi, ps) == 8 * ForwardedBytes(f, qfi, ps)
    decreases |ps|
  {
    hide Refilled, Verdict, AfterPacket;
    if ps == [] {
    } else {
      var p := ps[0];
      AfterPacketIs(f, qfi, p.len, p.now);
      VerdictIs(f, qfi, p.len, p.now);
      GbrSpendingIsExact(AfterPacket(f, qfi, p.len, p.now), qfi, ps[1..]);
    }
  }

  // ---------- Runs with rate updates ----------

  datatype FlowEvent =
    | Packet(len: U64, now: U64)
    | Begin
    | Commit(gbr: U64, mbr: U64)

  datatype FlowState = FlowState(entry: Flow, snapshot: Option<Flow>)

  /** What UpdateQoSFlowRates writes back: its copy of the entry with four rate fields replaced. */
  function WithRates(f: Flow, gbr: U64, mbr: U64): Flow {
    f.(gbrBps := gbr, mbrBps := mbr, gbr := f.gbr.(rateBps := gbr), mbr := f.mbr.(rateBps := mbr))
  }

  /** The copy that is written back has the new rates and, for the rest, the levels and counters of when it was read. */
  lemma WithRatesIs(f: Flow, gbr: U64, mbr: U64)
    ensures var g := WithRates(f, gbr, mbr);
      && g.gbrBps == g.gbr.rateBps == gbr && g.mbrBps == g.mbr.rateBps == mbr
      && g.gbr == f.gbr.(rateBps := g.gbr.rateBps) && g.mbr == f.mbr.(rateBps := g.mbr.rateBps)
      && g == f.(gbrBps := g.gbrBps, mbrBps := g.mbrBps, gbr := g.gbr, mbr := g.mbr)
  {
  }

  function FlowStep(s: FlowState, qfi: U8, e: FlowEvent): FlowState {
    match e
    case Packet(len, now) => s.(entry := AfterPacket(s.entry, qfi, len, now))
    case Begin => s.(snapshot := Some(s.entry))
    case Commit(gbr, mbr) =>
      if s.snapshot.None? then s else FlowState(WithRates(s.snapshot.value, gbr, mbr), None)
  }

  function FlowRun(s: FlowState, qfi: U8, es: seq<FlowEvent>): FlowState
    decreases |es|
  {
    if es == [] then s else FlowRun(FlowStep(s, qfi, es[0]), qfi, es[1..])
  }

  /** The bits of the packets that leave the flow with verdict QOS_OK. */
  function ForwardedBits(s: FlowState, qfi: U8, es: seq<FlowEvent>): nat
    decreases |es|
  {
    if es == [] then 0 else
    (match es[0]
     case Packet(len, now) => if Verdict(s.entry, qfi, len, now) == QOS_OK then 8 * len else 0
     case _ => 0) + ForwardedBits(FlowStep(s, qfi, es[0]), qfi, es[1..])
  }

  /** The maximum-rate bucket's view of a flow's run. */
  function MbrView(es: seq<FlowEvent>): seq<BucketRuns.Event> {
    seq(|es|, i requires 0 <= i < |es| =>
      match es[i]
      case Packet(len, now) => BucketRuns.Packet(len, now)
      case Begin => BucketRuns.Begin
      case Commit(_, mbr) => BucketRuns.Commit(mbr))
  }

  function MbrState(s: FlowState): BucketRuns.State {
    BucketRuns.State(s.entry.mbr, if s.snapshot.None? then None else Some(s.snapshot.value.mbr))
  }

  /** The entry is policed: live, with a nonzero maximum rate that its bucket shares. */
  predicate Policed(f: Flow) {
    f.magic == QOS_MAGIC && f.mbrBps > 0 && f.mbr.rateBps == f.mbrBps
  }

  /** Every commit sets a maximum rate of at least 1 and at most r; packets are of real lengths. */
  predicate PolicedRun(es: seq<FlowEvent>, r: nat) {
    forall i :: 0 <= i < |es| ==>
      match es[i]
      case Packet(len, _) => len < 0x2000_0000_0000_0000
      case Begin => true
      case Commit(_, mbr) => 0 < mbr <= r
  }

  /** The maximum-rate bucket runs on its own: no other field of the entry steers it. */
  lemma {:induction false} ForwardedIsAdmitted(s: FlowState, qfi: U8, es: seq<FlowEvent>, r: nat)
    requires qfi != QFI_VOVR && PolicedRun(es, r)
    requires Policed(s.entry) && (s.snapshot.Some? ==> Policed(s.snapshot.value))
    ensures ForwardedBits(s, qfi, es) <= BucketRuns.Admitted(MbrState(s), MbrView(es))
    decreases |es|
  {
    hide Accepts, Consumed;
    if es == [] {
    } else {
      assert MbrView(es)[1..] == MbrView(es[1..]);
      if es[0].Packet? {
        BucketRuns.ConsumeSpends(s.entry.mbr, es[0].len, es[0].now);
      }
      ForwardedIsAdmitted(FlowStep(s, qfi, es[0]), qfi, es[1..], r);
    }
  }

  /**
   What a policed, non-voice flow forwards is bounded by its burst, the anomalies of the run, and
   the highest maximum rate in force times the time that passes.
   */
  lemma FlowRateBound(f: Flow, qfi: U8, es: seq<FlowEvent>, r: nat)
    requires qfi != QFI_VOVR && PolicedRun(es, r)
    requires Policed(f) && f.mbrBps <= r && f.mbr.tokens <= f.mbr.burstSize
    ensures
      var view := MbrView(es);
      ForwardedBits(FlowState(f, None), qfi, es)
      <= f.mbr.burstSize * (1 + BucketRuns.BackwardSteps(None, view) + BucketRuns.Commits(view))
         + r * BucketRuns.ForwardGaps(None, view) / NS_PER_SEC
  {
    ForwardedIsAdmitted(FlowState(f, None), qfi, es, r);
    BucketRuns.RateBound(f.mbr, MbrView(es), r);
  }

  // ---------- The guaranteed-rate bucket ----------

  /** What one event is to the guaranteed-rate bucket, which never sees a packet the other has rejected. */
  function GbrEvents(s: FlowState, e: FlowEvent): seq<BucketRuns.Event> {
    match e
    case Packet(len, now) => if MbrRejects(s.entry, len, now) then [] else [BucketRuns.Packet(len, now)]
    case Begin => [BucketRuns.Begin]
    case Commit(gbr, _) => [BucketRuns.Commit(gbr)]
  }

  function GbrView(s: FlowState, qfi: U8, es: seq<FlowEvent>): seq<BucketRuns.Event>
    decreases |es|
  {
    if es == [] then [] else GbrEvents(s, es[0]) + GbrView(FlowStep(s, qfi, es[0]), qfi, es[1..])
  }

  function GbrState(s: FlowState): BucketRuns.State {
    BucketRuns.State(s.entry.gbr, if s.snapshot.None? then None else Some(s.snapshot.value.gbr))
  }

  predicate Guaranteed(f: Flow) {
    f.magic == QOS_MAGIC && GbrApplies(f) && f.gbr.rateBps == f.gbrBps
  }

  /** Every commit sets a guaranteed rate of at least 1 and at most r. */
  predicate GuaranteedRun(es: seq<FlowEvent>, r: nat) {
    forall i :: 0 <= i < |es| ==>
      match es[i]
      case Packet(len, _) => len < 0x2000_0000_0000_0000
      case Begin => true
      case Commit(gbr, _) => 0 < gbr <= r
  }

  predicate GuaranteedState(s: FlowState) {
    Guaranteed(s.entry) && (s.snapshot.Some? ==> Guaranteed(s.snapshot.value))
  }

  /** One event: the flow forwards no more than the guaranteed-rate bucket admits. */
  lemma EventIsGuaranteed(s: FlowState, qfi: U8, e: FlowEvent, rest: seq<BucketRuns.Event>, r: nat)
    requires (qfi == QFI_VIDEO || qfi == QFI_DEFAULT) && GuaranteedRun([e], r) && GuaranteedState(s)
    requires BucketRuns.Bounded(rest, r)
    ensures var s1, view := FlowStep(s, qfi, e), GbrEvents(s, e) + rest;
      && BucketRuns.Bounded(view, r)
      && (if e.Packet? && Verdict(s.entry, qfi, e.len, e.now) == QOS_OK then 8 * e.len else 0)
         + BucketRuns.Admitted(GbrState(s1), rest) <= BucketRuns.Admitted(GbrState(s), view)
  {
    hide Accepts, Consumed, BucketRuns.Admitted, Refilled;
    assert [e][0] == e;
    if e.Packet? {
      BucketRuns.ConsumeSpends(s.entry.gbr, e.len, e.now);
    }
    if GbrEvents(s, e) == [] {
      assert GbrEvents(s, e) + rest == rest;
    } else {
      BucketRuns.Unfold(GbrState(s), None, GbrEvents(s, e)[0], rest);
    }
  }

  lemma FirstFlowEvent(s: FlowState, qfi: U8, es: seq<FlowEvent>, r: nat)
    requires es != []
    ensures ForwardedBits(s, qfi, es) ==
            (if es[0].Packet? && Verdict(s.entry, qfi, es[0].len, es[0].now) == QOS_OK then 8 * es[0].len else 0)
            + ForwardedBits(FlowStep(s, qfi, es[0]), qfi, es[1..])
    ensures GuaranteedRun(es, r) ==> GuaranteedRun([es[0]], r) && GuaranteedRun(es[1..], r)
  {
    hide Verdict, FlowStep;
  }

  /** The two buckets are in series: what is forwarded passed the second on its own clock too. */
  lemma {:induction false} ForwardedIsGuaranteed(s: FlowState, qfi: U8, es: seq<FlowEvent>, r: nat)
    requires (qfi == QFI_VIDEO || qfi == QFI_DEFAULT) && GuaranteedRun(es, r) && GuaranteedState(s)
    ensures ForwardedBits(s, qfi, es) <= BucketRuns.Admitted(GbrState(s), GbrView(s, qfi, es))
    ensures BucketRuns.Bounded(GbrView(s, qfi, es), r)
    decreases |es|
  {
    if es == [] {
    } else {
      hide GuaranteedRun, GuaranteedState, FlowStep, GbrEvents, BucketRuns.Admitted, BucketRuns.Bounded, Verdict, ForwardedBits;
      var e, s1 := es[0], FlowStep(s, qfi, es[0]);
      FirstFlowEvent(s, qfi, es, r);
      EventKeepsGuarantee(s, qfi, e, r);
      ForwardedIsGuaranteed(s1, qfi, es[1..], r);
      EventIsGuaranteed(s, qfi, e, GbrView(s1, qfi, es[1..]), r);
    }
  }

  lemma EventKeepsGuarantee(s: FlowState, qfi: U8, e: FlowEvent, r: nat)
    requires GuaranteedRun([e], r) && GuaranteedState(s)
    ensures GuaranteedState(FlowStep(s, qfi, e))
  {
    hide Accepts, Consumed;
    assert [e][0] == e;
    if e.Packet? {
      BucketRuns.ConsumeSpends(s.entry.gbr, e.len, e.now);
    }
  }

  /**
   A video or default flow of guaranteed type is held to its guaranteed rate as well: over the
   packets its maximum-rate bucket passes, it forwards no more than that rate and burst allow.
   */
  lemma GuaranteedRateIsACeiling(f: Flow, qfi: U8, es: seq<FlowEvent>, r: nat)
    requires (qfi == QFI_VIDEO || qfi == QFI_DEFAULT) && GuaranteedRun(es, r)
    requires Guaranteed(f) && f.gbrBps <= r && f.gbr.tokens <= f.gbr.burstSize
    ensures
      var s := FlowState(f, None); var view := GbrView(s, qfi, es);
      ForwardedBits(s, qfi, es)
      <= f.gbr.burstSize * (1 + BucketRuns.BackwardSteps(None, view) + BucketRuns.Commits(view))
         + r * BucketRuns.ForwardGaps(None, view) / NS_PER_SEC
  {
    hide BucketRuns.Admitted, BucketRuns.Bounded, ForwardedBits, GbrView;
    ForwardedIsGuaranteed(FlowState(f, None), qfi, es, r);
    BucketRuns.RateBound(f.gbr, GbrView(FlowState(f, None), qfi, es), r);
  }
}
