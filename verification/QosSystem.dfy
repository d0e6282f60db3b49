/**
 The QoS manager's flow table and the kernel's flow map as one state machine: control-plane
 operations whose map accesses may fail, rate updates split into read and write, and packets
 in between.
 */
module QosSystem {
  import opened Machine
  import opened FlowNames
  import opened QosFlows
  import opened TokenBuckets
  import BucketRuns
  import Ingress

  const MAX_QOS_FLOWS: nat := 1024

  /** The control plane's record of a flow. */
  datatype Record = Record(
    teid: U32, qfi: U8, flowType: U8, priority: U8, gbrBps: U64, mbrBps: U64, burstBytes: U64, pdrId: U16, qerId: U32)

  type Kernel = map<FlowKey, Flow>

  /** A rate update between its read of the kernel entry and its write. */
  datatype Pending = Pending(key: FlowKey, copy: Flow, gbr: U64, mbr: U64)

  /**
   stale holds the flows whose latest rate update has not been written to the kernel. While an
   update is pending the manager's lock is held, so no other control operation can run.
   */
  datatype Sys = Sys(flows: map<string, Record>, kernel: Kernel, pending: Option<Pending>, stale: set<FlowKey>)

  /** A fault flag makes the map access fail for a reason of the kernel's own. */
  datatype Event =
    | Add(record: Record, fault: bool)
    | Remove(teid: U32, qfi: U8, fault: bool)
    | BeginUpdate(teid: U32, qfi: U8, gbr: U64, mbr: U64, fault: bool)
    | CommitUpdate(fault: bool)
    | Packet(key: FlowKey, len: U64, now: U64)

  // ---------- Kernel map operations ----------

  predicate PutOk(m: Kernel, key: FlowKey, fault: bool) {
    !fault && (key in m || |m| < MAX_QOS_FLOWS)
  }

  predicate AccessOk(m: Kernel, key: FlowKey, fault: bool) {
    !fault && key in m
  }

  function BurstBits(burstBytes: U64): U64 {
    Wrap64(burstBytes * 8)
  }

  /** The kernel entry for a new flow: both buckets full and never refilled. */
  function NewEntry(r: Record): Flow {
    var bits := BurstBits(r.burstBytes);
    Flow(QOS_MAGIC, r.qfi, r.flowType, r.priority, 0, r.gbrBps, r.mbrBps,
         Bucket(bits, 0, r.gbrBps, bits), Bucket(bits, 0, r.mbrBps, bits), 0, 0, 0)
  }

  function KeyOf(r: Record): FlowKey {
    FlowKey(r.teid, r.qfi)
  }

  // ---------- Steps ----------

  function AddStep(s: Sys, r: Record, fault: bool): Sys {
    var name := FlowName(r.teid, r.qfi);
    if name in s.flows || !PutOk(s.kernel, KeyOf(r), fault) then s
    else s.(flows := s.flows[name := r], kernel := s.kernel[KeyOf(r) := NewEntry(r)], stale := s.stale - {KeyOf(r)})
  }

  function RemoveStep(s: Sys, key: FlowKey, fault: bool): Sys {
    var name := FlowName(key.teid, key.qfi);
    if name !in s.flows || !AccessOk(s.kernel, key, fault) then s
    else s.(flows := s.flows - {name}, kernel := s.kernel - {key}, stale := s.stale - {key})
  }

  /** The record is changed first; then the kernel entry is read. */
  function BeginStep(s: Sys, key: FlowKey, gbr: U64, mbr: U64, fault: bool): Sys {
    var name := FlowName(key.teid, key.qfi);
    if name !in s.flows then s else
    s.(flows := s.flows[name := s.flows[name].(gbrBps := gbr, mbrBps := mbr)],
       stale := s.stale + {key},
       pending := if AccessOk(s.kernel, key, fault) then Some(Pending(key, s.kernel[key], gbr, mbr)) else None)
  }

  /** The copy is written back over whatever the entry has become. */
  function CommitStep(s: Sys, fault: bool): Sys {
    if s.pending.None? then s else
    var p := s.pending.value;
    if !PutOk(s.kernel, p.key, fault) then s.(pending := None)
    else s.(kernel := s.kernel[p.key := WithRates(p.copy, p.gbr, p.mbr)], pending := None, stale := s.stale - {p.key})
  }

  function Step(s: Sys, e: Event): Sys {
    match e
    case Packet(key, len, now) => s.(kernel := Ingress.Police(s.kernel, key, len, now).1)
    case CommitUpdate(fault) => CommitStep(s, fault)
    case Add(r, fault) => if s.pending.Some? then s else AddStep(s, r, fault)
    case Remove(teid, qfi, fault) => if s.pending.Some? then s else RemoveStep(s, FlowKey(teid, qfi), fault)
    case BeginUpdate(teid, qfi, gbr, mbr, fault) =>
      if s.pending.Some? then s else BeginStep(s, FlowKey(teid, qfi), gbr, mbr, fault)
  }

  function Run(s: Sys, es: seq<Event>): Sys
    decreases |es|
  {
    if es == [] then s else Run(Step(s, es[0]), es[1..])
  }

  // ---------- What each operation achieves ----------

  /** A new flow's name is free and its entry can be written. */
  predicate CanAdd(s: Sys, r: Record, fault: bool) {
    FlowName(r.teid, r.qfi) !in s.flows && !fault && (FlowKey(r.teid, r.qfi) in s.kernel || |s.kernel| < 1024)
  }

  /**
   Adding a flow stores the record under its name and, under its key, a live entry with the record's rates
   in its fields and in two full buckets of eight bits per burst octet that have never been refilled;
   it touches no other flow. When it cannot be added nothing changes.
   */
  lemma AddIs(s: Sys, r: Record, fault: bool)
    ensures var s' := AddStep(s, r, fault); var key, bits := FlowKey(r.teid, r.qfi), r.burstBytes * 8 % 0x1_0000_0000_0000_0000;
      && (!CanAdd(s, r, fault) ==> s' == s)
      && (CanAdd(s, r, fault) ==>
            && s'.flows == s.flows[FlowName(r.teid, r.qfi) := r]
            && s'.kernel.Keys == s.kernel.Keys + {key} && (forall k :: k in s.kernel && k != key ==> s'.kernel[k] == s.kernel[k])
            && s'.kernel[key] == Flow(0x514F_5300, r.qfi, r.flowType, r.priority, 0, r.gbrBps, r.mbrBps,
                                      Bucket(bits, 0, r.gbrBps, bits), Bucket(bits, 0, r.mbrBps, bits), 0, 0, 0))
  {
    hide FlowName;
  }

  /** Removing an installed flow takes its name and its key away, and nothing else; when it fails nothing changes. */
  lemma RemoveIs(s: Sys, key: FlowKey, fault: bool)
    ensures var s' := RemoveStep(s, key, fault); var name := FlowName(key.teid, key.qfi);
      if name in s.flows && key in s.kernel && !fault then
        && name !in s'.flows && key !in s'.kernel
        && (forall n :: n in s.flows && n != name ==> n in s'.flows && s'.flows[n] == s.flows[n])
        && (forall k :: k in s.kernel && k != key ==> k in s'.kernel && s'.kernel[k] == s.kernel[k])
        && (forall n :: n in s'.flows ==> n in s.flows) && (forall k :: k in s'.kernel ==> k in s.kernel)
      else s' == s
  {
    hide FlowName;
  }

  /**
   An update with nothing in between: the record and, if neither access fails, the entry have the new rates;
   levels, clocks, bursts and counters of the entry stay, and so does every other flow.
   */
  lemma UpdateIs(s: Sys, key: FlowKey, gbr: U64, mbr: U64, readFault: bool, writeFault: bool)
    requires s.pending.None? && FlowName(key.teid, key.qfi) in s.flows
    ensures var s' := CommitStep(BeginStep(s, key, gbr, mbr, readFault), writeFault); var name := FlowName(key.teid, key.qfi);
      && s'.flows == s.flows[name := s.flows[name].(gbrBps := gbr, mbrBps := mbr)]
      && (readFault || writeFault || key !in s.kernel ==> s'.kernel == s.kernel)
      && (!readFault && !writeFault && key in s.kernel ==>
            && s'.kernel.Keys == s.kernel.Keys
            && (forall k :: k in s.kernel && k != key ==> s'.kernel[k] == s.kernel[k])
            && s'.kernel[key] == s.kernel[key].(gbrBps := gbr, mbrBps := mbr,
                                                gbr := s.kernel[key].gbr.(rateBps := gbr),
                                                mbr := s.kernel[key].mbr.(rateBps := mbr)))
  {
    hide FlowName;
  }

  /** With packets in between, the flow's entry is what it was before them, rates aside: their charges are lost. */
  lemma StaleCommitIs(s: Sys, key: FlowKey, gbr: U64, mbr: U64, meanwhile: Kernel)
    requires s.pending.None? && FlowName(key.teid, key.qfi) in s.flows && key in s.kernel && key in meanwhile
    ensures var s' := CommitStep(BeginStep(s, key, gbr, mbr, false).(kernel := meanwhile), false);
      && s'.kernel.Keys == meanwhile.Keys
      && (forall k :: k in meanwhile && k != key ==> s'.kernel[k] == meanwhile[k])
      && s'.kernel[key].gbr.tokens == s.kernel[key].gbr.tokens && s'.kernel[key].mbr.tokens == s.kernel[key].mbr.tokens
      && s'.kernel[key].mbr.lastUpdateNs == s.kernel[key].mbr.lastUpdateNs
      && s'.kernel[key].totalBytes == s.kernel[key].totalBytes
      && s'.kernel[key].mbr.rateBps == s'.kernel[key].mbrBps == mbr
      && s'.kernel[key].gbr.rateBps == s'.kernel[key].gbrBps == gbr
  {
    hide FlowName;
  }

  const EMPTY: Sys := Sys(map[], map[], None, {})

  // ---------- The invariant ----------

  /** The kernel entry is live and belongs to the record, rates aside. */
  predicate EntryFits(r: Record, f: Flow) {
    && f.magic == QOS_MAGIC && f.qfi == r.qfi && f.flowType == r.flowType && f.priority == r.priority
    && f.gbr.rateBps == f.gbrBps && f.mbr.rateBps == f.mbrBps
    && f.gbr.tokens <= f.gbr.burstSize == BurstBits(r.burstBytes)
    && f.mbr.tokens <= f.mbr.burstSize == BurstBits(r.burstBytes)
  }

  predicate SameRates(r: Record, f: Flow) {
    && r.gbrBps == f.gbrBps == f.gbr.rateBps
    && r.mbrBps == f.mbrBps == f.mbr.rateBps
  }

  /** The record the control plane keeps under the name of key. */
  ghost predicate Knows(s: Sys, key: FlowKey) {
    FlowName(key.teid, key.qfi) in s.flows
  }

  function RecordOf(s: Sys, key: FlowKey): Record
    requires FlowName(key.teid, key.qfi) in s.flows
  {
    s.flows[FlowName(key.teid, key.qfi)]
  }

  /** Every name in the table is the name of the record it leads to. */
  ghost predicate NamesRight(s: Sys) {
    forall name :: name in s.flows ==> name == FlowName(s.flows[name].teid, s.flows[name].qfi)
  }

  /**
   The two sides agree: the same flows, in the same number and at most 1024; every kernel entry
   fits its record, with the record's rates unless the flow is stale.
   */
  ghost predicate Agree(s: Sys) {
    && NamesRight(s)
    && (forall key :: key in s.kernel <==> Knows(s, key))
    && |s.flows| == |s.kernel| <= MAX_QOS_FLOWS
    && (forall key :: key in s.kernel && Knows(s, key) ==>
          EntryFits(RecordOf(s, key), s.kernel[key])
          && (key in s.stale || SameRates(RecordOf(s, key), s.kernel[key])))
    && (s.pending.Some? ==>
          var p := s.pending.value;
          && p.key in s.kernel && Knows(s, p.key) && p.key in s.stale
          && EntryFits(RecordOf(s, p.key), p.copy)
          && RecordOf(s, p.key).gbrBps == p.gbr && RecordOf(s, p.key).mbrBps == p.mbr)
  }

  lemma PacketKeepsEntry(r: Record, f: Flow, qfi: U8, len: U64, now: U64)
    requires EntryFits(r, f)
    ensures EntryFits(r, AfterPacket(f, qfi, len, now))
    ensures SameRates(r, f) ==> SameRates(r, AfterPacket(f, qfi, len, now))
  {
    hide Consumed, Accepts;
    ConsumeWithinBurst(f.gbr, len, now);
    ConsumeWithinBurst(f.mbr, len, now);
  }

  lemma NameOfKey(s: Sys, k1: FlowKey, k2: FlowKey)
    requires FlowName(k1.teid, k1.qfi) == FlowName(k2.teid, k2.qfi)
    ensures k1 == k2
  {
    FlowNameInjective(k1.teid, k1.qfi, k2.teid, k2.qfi);
  }

  lemma AddKeepsAgreement(s: Sys, r: Record, fault: bool)
    requires Agree(s) && s.pending.None?
    ensures Agree(AddStep(s, r, fault))
  {
    hide FlowName, BurstBits;
    var s' := AddStep(s, r, fault);
    var name, key := FlowName(r.teid, r.qfi), KeyOf(r);
    if s' != s {
      forall k | k != key
        ensures FlowName(k.teid, k.qfi) != name
      {
        if FlowName(k.teid, k.qfi) == name { NameOfKey(s, k, key); }
      }
      assert !Knows(s, key);
      forall k
        ensures k in s'.kernel <==> Knows(s', k)
      {
        assert k in s.kernel <==> Knows(s, k);
      }
      forall k | k in s'.kernel && Knows(s', k)
        ensures EntryFits(RecordOf(s', k), s'.kernel[k])
        ensures k in s'.stale || SameRates(RecordOf(s', k), s'.kernel[k])
      {
        if k != key { assert Knows(s, k); }
      }
    }
  }

  lemma RemoveKeepsAgreement(s: Sys, key: FlowKey, fault: bool)
    requires Agree(s) && s.pending.None?
    ensures Agree(RemoveStep(s, key, fault))
  {
    hide FlowName, EntryFits, SameRates;
    var s' := RemoveStep(s, key, fault);
    var name := FlowName(key.teid, key.qfi);
    if s' != s {
      forall k | k != key
        ensures FlowName(k.teid, k.qfi) != name
      {
        if FlowName(k.teid, k.qfi) == name { NameOfKey(s, k, key); }
      }
      forall k
        ensures k in s'.kernel <==> Knows(s', k)
      {
        assert k in s.kernel <==> Knows(s, k);
      }
      assert |s'.flows| == |s.flows| - 1 by { RemovedOne(s.flows, name); }
      assert |s'.kernel| == |s.kernel| - 1 by { RemovedOne(s.kernel, key); }
      forall k | k in s'.kernel && Knows(s', k)
        ensures EntryFits(RecordOf(s', k), s'.kernel[k])
        ensures k in s'.stale || SameRates(RecordOf(s', k), s'.kernel[k])
      {
        assert Knows(s, k);
      }
    }
  }

  lemma RemovedOne<K, V>(m: map<K, V>, k: K)
    requires k in m
    ensures |m - {k}| == |m| - 1
  {
    assert (m - {k}).Keys == m.Keys - {k};
    assert |m.Keys - {k}| == |m.Keys| - 1;
  }

  lemma BeginKeepsAgreement(s: Sys, key: FlowKey, gbr: U64, mbr: U64, fault: bool)
    requires Agree(s) && s.pending.None?
    ensures Agree(BeginStep(s, key, gbr, mbr, fault))
  {
    hide FlowName, BurstBits;
    var s' := BeginStep(s, key, gbr, mbr, fault);
    var name := FlowName(key.teid, key.qfi);
    if name in s.flows {
      assert Knows(s, key) && key in s.kernel;
      forall k | k != key
        ensures FlowName(k.teid, k.qfi) != name
      {
        if FlowName(k.teid, k.qfi) == name { NameOfKey(s, k, key); }
      }
      forall k
        ensures k in s'.kernel <==> Knows(s', k)
      {
        assert k in s.kernel <==> Knows(s, k);
      }
      assert s'.flows.Keys == s.flows.Keys;
      forall k | k in s'.kernel && Knows(s', k)
        ensures EntryFits(RecordOf(s', k), s'.kernel[k])
        ensures k in s'.stale || SameRates(RecordOf(s', k), s'.kernel[k])
      {
        assert Knows(s, k);
      }
    }
  }

  lemma CommitKeepsAgreement(s: Sys, fault: bool)
    requires Agree(s)
    ensures Agree(CommitStep(s, fault))
  {
    hide FlowName, BurstBits;
    var s' := CommitStep(s, fault);
    if s.pending.Some? {
      assert s'.kernel.Keys == s.kernel.Keys;
      forall k
        ensures k in s'.kernel <==> Knows(s', k)
      {
        assert k in s.kernel <==> Knows(s, k);
      }
      forall k | k in s'.kernel && Knows(s', k)
        ensures EntryFits(RecordOf(s', k), s'.kernel[k])
        ensures k in s'.stale || SameRates(RecordOf(s', k), s'.kernel[k])
      {
        assert Knows(s, k);
      }
    }
  }

  lemma PacketKeepsAgreement(s: Sys, key: FlowKey, len: U64, now: U64)
    requires Agree(s)
    ensures Agree(Step(s, Event.Packet(key, len, now)))
  {
    hide FlowName, EntryFits, SameRates, AfterPacket, Verdict;
    var s' := Step(s, Event.Packet(key, len, now));
    if key in s.kernel {
      assert Knows(s, key);
      PacketKeepsEntry(RecordOf(s, key), s.kernel[key], key.qfi, len, now);
      assert s'.kernel.Keys == s.kernel.Keys;
      forall k
        ensures k in s'.kernel <==> Knows(s', k)
      {
        assert k in s.kernel <==> Knows(s, k);
      }
      forall k | k in s'.kernel && Knows(s', k)
        ensures EntryFits(RecordOf(s', k), s'.kernel[k])
        ensures k in s'.stale || SameRates(RecordOf(s', k), s'.kernel[k])
      {
        assert Knows(s, k);
      }
    }
  }

  lemma StepKeepsAgreement(s: Sys, e: Event)
    requires Agree(s)
    ensures Agree(Step(s, e))
  {
    hide Agree, AddStep, RemoveStep, BeginStep, CommitStep;
    match e {
      case Packet(key, len, now) => PacketKeepsAgreement(s, key, len, now);
      case CommitUpdate(fault) => CommitKeepsAgreement(s, fault);
      case Add(r, fault) => if s.pending.None? { AddKeepsAgreement(s, r, fault); }
      case Remove(teid, qfi, fault) =>
        if s.pending.None? { RemoveKeepsAgreement(s, FlowKey(teid, qfi), fault); }
      case BeginUpdate(teid, qfi, gbr, mbr, fault) =>
        if s.pending.None? { BeginKeepsAgreement(s, FlowKey(teid, qfi), gbr, mbr, fault); }
    }
  }

  /** Control plane and kernel agree after every run, whichever map accesses fail along the way. */
  lemma {:induction false} RunKeepsAgreement(s: Sys, es: seq<Event>)
    requires Agree(s)
    ensures Agree(Run(s, es))
    decreases |es|
  {
    hide Agree, Step;
    if es == [] {
    } else {
      StepKeepsAgreement(s, es[0]);
      RunKeepsAgreement(Step(s, es[0]), es[1..]);
    }
  }

  lemma EmptyAgrees()
    ensures Agree(EMPTY)
  {
  }

  // ---------- The rate bound for a flow of the running system ----------

  /** What one system event is to the kernel entry under key. */
  function EntryEvents(s: Sys, e: Event, key: FlowKey): seq<FlowEvent> {
    match e
    case Packet(k, len, now) => if k == key then [FlowEvent.Packet(len, now)] else []
    case BeginUpdate(_, _, _, _, _) =>
      var p := Step(s, e).pending;
      if s.pending.None? && p.Some? && p.value.key == key then [FlowEvent.Begin] else []
    case CommitUpdate(fault) =>
      if s.pending.Some? && s.pending.value.key == key && PutOk(s.kernel, key, fault)
      then [FlowEvent.Commit(s.pending.value.gbr, s.pending.value.mbr)] else []
    case _ => []
  }

  function Trace(s: Sys, es: seq<Event>, key: FlowKey): seq<FlowEvent>
    decreases |es|
  {
    if es == [] then [] else EntryEvents(s, es[0], key) + Trace(Step(s, es[0]), es[1..], key)
  }

  /** The flow stays installed throughout the run. */
  predicate Kept(s: Sys, es: seq<Event>, key: FlowKey)
    decreases |es|
  {
    key in s.kernel && (es != [] ==> Kept(Step(s, es[0]), es[1..], key))
  }

  /** Bits of the packets of this flow that the system lets through. */
  function FlowForwarded(s: Sys, es: seq<Event>, key: FlowKey): nat
    decreases |es|
  {
    if es == [] then 0 else
    (if es[0].Packet? && es[0].key == key && Ingress.Police(s.kernel, key, es[0].len, es[0].now).0 == QOS_OK
     then 8 * es[0].len else 0) + FlowForwarded(Step(s, es[0]), es[1..], key)
  }

  /** Updates of this flow set a maximum rate from 1 to r; packets are of real lengths. */
  predicate UpdatesWithin(es: seq<Event>, key: FlowKey, r: nat) {
    forall i :: 0 <= i < |es| ==>
      match es[i]
      case Packet(_, len, _) => len < 0x2000_0000_0000_0000
      case BeginUpdate(teid, qfi, _, mbr, _) => FlowKey(teid, qfi) == key ==> 0 < mbr <= r
      case _ => true
  }

  predicate PendingWithin(s: Sys, key: FlowKey, r: nat) {
    s.pending.Some? && s.pending.value.key == key ==> 0 < s.pending.value.mbr <= r
  }

  /** A flow run that stands for the kernel entry under key. */
  predicate Stands(f: FlowState, s: Sys, key: FlowKey) {
    && key in s.kernel && f.entry == s.kernel[key]
    && (s.pending.Some? && s.pending.value.key == key ==> f.snapshot == Some(s.pending.value.copy))
  }

  /** One system event is at most one flow event, and forwards the same bits. */
  lemma StepProjects(s: Sys, e: Event, key: FlowKey, f: FlowState, r: nat)
    requires Agree(s) && Stands(f, s, key) && key in Step(s, e).kernel
    requires PendingWithin(s, key, r) && UpdatesWithin([e], key, r)
    ensures var fe := EntryEvents(s, e, key);
      && |fe| <= 1 && PolicedRun(fe, r)
      && Stands(FlowRun(f, key.qfi, fe), Step(s, e), key)
      && ForwardedBits(f, key.qfi, fe) == FlowForwarded(s, [e], key)
    ensures PendingWithin(Step(s, e), key, r)
  {
    hide AfterPacket, Verdict, FlowName, Agree;
    var fe := EntryEvents(s, e, key);
    assert [e][1..] == [];
    if fe != [] {
      assert fe[1..] == [];
    }
    assert [e][0] == e;
    if e.Add? && s.pending.None? {
      KnownIffInstalled(s, key);
    }
  }

  lemma KnownIffInstalled(s: Sys, key: FlowKey)
    requires Agree(s)
    ensures key in s.kernel <==> FlowName(key.teid, key.qfi) in s.flows
  {
    assert key in s.kernel <==> Knows(s, key);
  }

  lemma {:induction false} TraceProjects(s: Sys, es: seq<Event>, key: FlowKey, f: FlowState, r: nat)
    requires Agree(s) && Stands(f, s, key) && Kept(s, es, key)
    requires PendingWithin(s, key, r) && UpdatesWithin(es, key, r)
    ensures PolicedRun(Trace(s, es, key), r)
    ensures ForwardedBits(f, key.qfi, Trace(s, es, key)) == FlowForwarded(s, es, key)
    ensures Stands(FlowRun(f, key.qfi, Trace(s, es, key)), Run(s, es), key)
    decreases |es|
  {
    hide Step, EntryEvents, Agree, FlowStep, Ingress.Police, Verdict;
    if es == [] {
    } else {
      var e, s1 := es[0], Step(s, es[0]);
      assert UpdatesWithin([e], key, r) && UpdatesWithin(es[1..], key, r);
      StepProjects(s, e, key, f, r);
      StepKeepsAgreement(s, e);
      var fe := EntryEvents(s, e, key);
      TraceProjects(s1, es[1..], key, FlowRun(f, key.qfi, fe), r);
      AppendOne(f, key.qfi, fe, Trace(s1, es[1..], key));
      assert FlowForwarded(s, [e], key) + FlowForwarded(s1, es[1..], key) == FlowForwarded(s, es, key) by {
        assert [e][1..] == [] && [e][0] == e;
      }
    }
  }

  lemma AppendOne(f: FlowState, qfi: U8, fe: seq<FlowEvent>, rest: seq<FlowEvent>)
    requires |fe| <= 1
    ensures FlowRun(f, qfi, fe + rest) == FlowRun(FlowRun(f, qfi, fe), qfi, rest)
    ensures ForwardedBits(f, qfi, fe + rest) == ForwardedBits(f, qfi, fe) + ForwardedBits(FlowRun(f, qfi, fe), qfi, rest)
  {
    hide FlowStep, Verdict;
    if fe == [] {
      assert fe + rest == rest;
    } else {
      assert fe[1..] == [] && (fe + rest)[1..] == rest;
    }
  }

  /**
   The rate bound in the running system. From any state the system can be in with no update under
   way, and over any run in which the flow stays installed, a non-voice flow with a maximum
   rate forwards at most its burst, once more for every backward timestamp and every committed
   update, plus the highest maximum rate times the forward time between its packets. Other
   flows, failing map accesses and stale write-backs do not add to it.
   */
  lemma SystemRateBound(s: Sys, es: seq<Event>, key: FlowKey, r: nat)
    requires Agree(s) && s.pending.None? && Kept(s, es, key) && key in s.kernel && key.qfi != QFI_VOVR
    requires 0 < s.kernel[key].mbrBps <= r && UpdatesWithin(es, key, r)
    ensures var view := MbrView(Trace(s, es, key));
      FlowForwarded(s, es, key)
      <= s.kernel[key].mbr.burstSize * (1 + BucketRuns.BackwardSteps(None, view) + BucketRuns.Commits(view))
         + r * BucketRuns.ForwardGaps(None, view) / NS_PER_SEC
  {
    hide *;
    InstalledEntry(s, es, key, r);
    TraceProjects(s, es, key, FlowState(s.kernel[key], None), r);
    FlowRateBound(s.kernel[key], key.qfi, Trace(s, es, key), r);
  }

  lemma InstalledEntry(s: Sys, es: seq<Event>, key: FlowKey, r: nat)
    requires Agree(s) && s.pending.None? && Kept(s, es, key)
    ensures key in s.kernel && Stands(FlowState(s.kernel[key], None), s, key) && PendingWithin(s, key, r)
    ensures s.kernel[key].mbrBps > 0 ==> Policed(s.kernel[key])
    ensures s.kernel[key].mbr.tokens <= s.kernel[key].mbr.burstSize
  {
    assert Knows(s, key) && EntryFits(RecordOf(s, key), s.kernel[key]);
  }
}
