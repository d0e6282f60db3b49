/**
 The packet counters: what each packet adds, and how 64-bit counters relate to ideal ones.
 */
module Counters {
  import opened Machine

  datatype Counters = Counters(
    rxPackets: nat, rxBytes: nat, txPackets: nat, txBytes: nat, dropPackets: nat, gtpuPackets: nat,
    teidMiss: nat, teidHit: nat, tornReadDetected: nat, spinLockContention: nat, pdrUpdateRetries: nat,
    qosShapedPackets: nat, qosDroppedGbr: nat, qosDroppedMbr: nat, qosVonrProtected: nat)

  const ZERO := Counters(0, 0, 0, 0, 0, 0, 0, 0, 0, 0, 0, 0, 0, 0, 0)

  /** What the pipeline reports about one packet it does not pass up the stack. */
  datatype Report = Report(packetType: int, bytes: nat, tornReads: nat, lockContention: nat, retries: nat, qosResult: int)

  function Count(condition: bool): nat {
    if condition then 1 else 0
  }

  lemma CountEither(a: bool, b: bool)
    requires !(a && b)
    ensures Count(a || b) == Count(a) + Count(b)
  {
  }

  /** The effect of one report on ideal, unbounded counters. */
  function Added(c: Counters, r: Report): Counters {
    var hit, miss, drop := Count(r.packetType == 0), Count(r.packetType == 1), Count(r.packetType == 2);
    var gbr, mbr := Count(r.qosResult == 2), Count(r.qosResult == 3);
    Counters(
      c.rxPackets + 1, c.rxBytes + r.bytes,
      c.txPackets + hit, c.txBytes + (if r.packetType == 0 then r.bytes else 0),
      c.dropPackets + miss + drop + gbr + mbr,
      c.gtpuPackets + hit + miss, c.teidMiss + miss, c.teidHit + hit,
      c.tornReadDetected + r.tornReads, c.spinLockContention + r.lockContention, c.pdrUpdateRetries + r.retries,
      c.qosShapedPackets + Count(r.qosResult == 1), c.qosDroppedGbr + gbr, c.qosDroppedMbr + mbr,
      c.qosVonrProtected + Count(r.qosResult == 4))
  }

  /** How many of the reports have a packet type, or a verdict of the policer. */
  function OfType(rs: seq<Report>, t: int): nat {
    if rs == [] then 0 else (if rs[0].packetType == t then 1 else 0) + OfType(rs[1..], t)
  }

  function WithResult(rs: seq<Report>, q: int): nat {
    if rs == [] then 0 else (if rs[0].qosResult == q then 1 else 0) + WithResult(rs[1..], q)
  }

  function TotalBytes(rs: seq<Report>): nat {
    if rs == [] then 0 else rs[0].bytes + TotalBytes(rs[1..])
  }

  function ForwardedBytes(rs: seq<Report>): nat {
    if rs == [] then 0 else (if rs[0].packetType == 0 then rs[0].bytes else 0) + ForwardedBytes(rs[1..])
  }

  function TornReads(rs: seq<Report>): nat {
    if rs == [] then 0 else rs[0].tornReads + TornReads(rs[1..])
  }

  function Retries(rs: seq<Report>): nat {
    if rs == [] then 0 else rs[0].retries + Retries(rs[1..])
  }

  function Contention(rs: seq<Report>): nat {
    if rs == [] then 0 else rs[0].lockContention + Contention(rs[1..])
  }

  function AddedAll(c: Counters, rs: seq<Report>): Counters
    decreases |rs|
  {
    if rs == [] then c else AddedAll(Added(c, rs[0]), rs[1..])
  }

  /** What each counter counts, over any list of reports; a policer's drop is counted as a drop twice. */
  lemma {:induction false} CountersMean(c: Counters, rs: seq<Report>)
    ensures var d := AddedAll(c, rs);
      && d.rxPackets == c.rxPackets + |rs| && d.rxBytes == c.rxBytes + TotalBytes(rs)
      && d.txPackets == c.txPackets + OfType(rs, 0) && d.txBytes == c.txBytes + ForwardedBytes(rs)
      && d.dropPackets == c.dropPackets + OfType(rs, 1) + OfType(rs, 2) + WithResult(rs, 2) + WithResult(rs, 3)
      && d.gtpuPackets == c.gtpuPackets + OfType(rs, 0) + OfType(rs, 1)
      && d.teidMiss == c.teidMiss + OfType(rs, 1) && d.teidHit == c.teidHit + OfType(rs, 0)
      && d.tornReadDetected == c.tornReadDetected + TornReads(rs)
      && d.spinLockContention == c.spinLockContention + Contention(rs)
      && d.pdrUpdateRetries == c.pdrUpdateRetries + Retries(rs)
      && d.qosShapedPackets == c.qosShapedPackets + WithResult(rs, 1)
      && d.qosDroppedGbr == c.qosDroppedGbr + WithResult(rs, 2)
      && d.qosDroppedMbr == c.qosDroppedMbr + WithResult(rs, 3)
      && d.qosVonrProtected == c.qosVonrProtected + WithResult(rs, 4)
    decreases |rs|
  {
    if rs != [] {
      CountersMean(Added(c, rs[0]), rs[1..]);
    }
  }

  function Wrapped(c: Counters): Counters {
    Counters(
      Wrap64(c.rxPackets), Wrap64(c.rxBytes), Wrap64(c.txPackets), Wrap64(c.txBytes), Wrap64(c.dropPackets),
      Wrap64(c.gtpuPackets), Wrap64(c.teidMiss), Wrap64(c.teidHit), Wrap64(c.tornReadDetected),
      Wrap64(c.spinLockContention), Wrap64(c.pdrUpdateRetries), Wrap64(c.qosShapedPackets),
      Wrap64(c.qosDroppedGbr), Wrap64(c.qosDroppedMbr), Wrap64(c.qosVonrProtected))
  }

  predicate NoneWraps(c: Counters) {
    && c.rxPackets < TWO64 && c.rxBytes < TWO64 && c.txPackets < TWO64 && c.txBytes < TWO64
    && c.dropPackets < TWO64 && c.gtpuPackets < TWO64 && c.teidMiss < TWO64 && c.teidHit < TWO64
    && c.tornReadDetected < TWO64 && c.spinLockContention < TWO64 && c.pdrUpdateRetries < TWO64
    && c.qosShapedPackets < TWO64 && c.qosDroppedGbr < TWO64 && c.qosDroppedMbr < TWO64
    && c.qosVonrProtected < TWO64
  }

  lemma WrappedWhenNoneWraps(c: Counters)
    requires NoneWraps(c)
    ensures Wrapped(c) == c
  {
  }

  /** Wrapping at every packet loses nothing that wrapping once at the end would keep. */
  lemma WrapAdded(c: Counters, r: Report)
    ensures Wrapped(Added(Wrapped(c), r)) == Wrapped(Added(c, r))
  {
    hide Wrap64;
    var d := Added(c, r);
    WrapAdd64(c.rxPackets, 1);
    WrapAdd64(c.rxBytes, r.bytes);
    WrapAdd64(c.txPackets, d.txPackets - c.txPackets);
    WrapAdd64(c.txBytes, d.txBytes - c.txBytes);
    WrapAdd64(c.dropPackets, d.dropPackets - c.dropPackets);
    WrapAdd64(c.gtpuPackets, d.gtpuPackets - c.gtpuPackets);
    WrapAdd64(c.teidMiss, d.teidMiss - c.teidMiss);
    WrapAdd64(c.teidHit, d.teidHit - c.teidHit);
    WrapAdd64(c.tornReadDetected, r.tornReads);
    WrapAdd64(c.spinLockContention, r.lockContention);
    WrapAdd64(c.pdrUpdateRetries, r.retries);
    WrapAdd64(c.qosShapedPackets, d.qosShapedPackets - c.qosShapedPackets);
    WrapAdd64(c.qosDroppedGbr, d.qosDroppedGbr - c.qosDroppedGbr);
    WrapAdd64(c.qosDroppedMbr, d.qosDroppedMbr - c.qosDroppedMbr);
    WrapAdd64(c.qosVonrProtected, d.qosVonrProtected - c.qosVonrProtected);
  }

  /** One CPU's `struct stats`, updated in place. */
  class Stats {
    var rxPackets: U64
    var rxBytes: U64
    var txPackets: U64
    var txBytes: U64
    var dropPackets: U64
    var gtpuPackets: U64
    var teidMiss: U64
    var teidHit: U64
    var tornReadDetected: U64
    var spinLockContention: U64
    var pdrUpdateRetries: U64
    var qosShapedPackets: U64
    var qosDroppedGbr: U64
    var qosDroppedMbr: U64
    var qosVonrProtected: U64

    constructor ()
      ensures Value() == ZERO
    {
      rxPackets, rxBytes, txPackets, txBytes, dropPackets := 0, 0, 0, 0, 0;
      gtpuPackets, teidMiss, teidHit, tornReadDetected, spinLockContention := 0, 0, 0, 0, 0;
      pdrUpdateRetries, qosShapedPackets, qosDroppedGbr, qosDroppedMbr, qosVonrProtected := 0, 0, 0, 0, 0;
    }

    function Value(): Counters
      reads this
    {
      Counters(rxPackets, rxBytes, txPackets, txBytes, dropPackets, gtpuPackets, teidMiss, teidHit,
               tornReadDetected, spinLockContention, pdrUpdateRetries, qosShapedPackets,
               qosDroppedGbr, qosDroppedMbr, qosVonrProtected)
    }

    lemma FieldsFit()
      ensures Wrapped(Value()) == Value()
    {
      hide Wrapped;
      WrappedWhenNoneWraps(Value());
    }

    /** update_stats_qos: the drop counter may be bumped twice for one packet. */
    method UpdateStatsQos(r: Report)
      modifies this
      ensures Value() == Wrapped(Added(old(Value()), r))
    {
      hide Wrap64, NoneWraps;
      ghost var c := Value();
      WrapAdd64(c.dropPackets + Count(r.packetType == 1 || r.packetType == 2), Count(r.qosResult == 2 || r.qosResult == 3));
      FieldsFit();
      CountEither(r.packetType == 1, r.packetType == 2);
      CountEither(r.packetType == 0, r.packetType == 1);
      CountEither(r.qosResult == 2, r.qosResult == 3);
      hide Count;
      rxPackets := Wrap64(rxPackets + 1);
      rxBytes := Wrap64(rxBytes + r.bytes);
      CountLookup(r);
      CountOutcome(r);
      CountQosResult(r);
    }

    method CountLookup(r: Report)
      modifies this
      ensures Value() == old(Value()).(
                tornReadDetected := Wrap64(old(tornReadDetected) + r.tornReads),
                spinLockContention := Wrap64(old(spinLockContention) + r.lockContention),
                pdrUpdateRetries := Wrap64(old(pdrUpdateRetries) + r.retries))
    {
      if r.tornReads != 0 {
        tornReadDetected := Wrap64(tornReadDetected + r.tornReads);
      }
      if r.lockContention != 0 {
        spinLockContention := Wrap64(spinLockContention + r.lockContention);
      }
      if r.retries != 0 {
        pdrUpdateRetries := Wrap64(pdrUpdateRetries + r.retries);
      }
    }

    method CountOutcome(r: Report)
      modifies this
      ensures Value() == old(Value()).(
                gtpuPackets := Wrap64(old(gtpuPackets) + Count(r.packetType == 0 || r.packetType == 1)),
                teidHit := Wrap64(old(teidHit) + Count(r.packetType == 0)),
                teidMiss := Wrap64(old(teidMiss) + Count(r.packetType == 1)),
                txPackets := Wrap64(old(txPackets) + Count(r.packetType == 0)),
                txBytes := Wrap64(old(txBytes) + (if r.packetType == 0 then r.bytes else 0)),
                dropPackets := Wrap64(old(dropPackets) + Count(r.packetType == 1 || r.packetType == 2)))
    {
      match r.packetType {
        case 0 =>
          gtpuPackets := Wrap64(gtpuPackets + 1);
          teidHit := Wrap64(teidHit + 1);
          txPackets := Wrap64(txPackets + 1);
          txBytes := Wrap64(txBytes + r.bytes);
        case 1 =>
          gtpuPackets := Wrap64(gtpuPackets + 1);
          teidMiss := Wrap64(teidMiss + 1);
          dropPackets := Wrap64(dropPackets + 1);
        case 2 =>
          dropPackets := Wrap64(dropPackets + 1);
        case _ =>
      }
    }

    method CountQosResult(r: Report)
      modifies this
      ensures Value() == old(Value()).(
                qosShapedPackets := Wrap64(old(qosShapedPackets) + Count(r.qosResult == 1)),
                qosDroppedGbr := Wrap64(old(qosDroppedGbr) + Count(r.qosResult == 2)),
                qosDroppedMbr := Wrap64(old(qosDroppedMbr) + Count(r.qosResult == 3)),
                qosVonrProtected := Wrap64(old(qosVonrProtected) + Count(r.qosResult == 4)),
                dropPackets := Wrap64(old(dropPackets) + Count(r.qosResult == 2 || r.qosResult == 3)))
    {
      match r.qosResult {
        case 1 =>
          qosShapedPackets := Wrap64(qosShapedPackets + 1);
        case 2 =>
          qosDroppedGbr := Wrap64(qosDroppedGbr + 1);
          dropPackets := Wrap64(dropPackets + 1);
        case 3 =>
          qosDroppedMbr := Wrap64(qosDroppedMbr + 1);
          dropPackets := Wrap64(dropPackets + 1);
        case 4 =>
          qosVonrProtected := Wrap64(qosVonrProtected + 1);
        case _ =>
      }
    }
  }
}
