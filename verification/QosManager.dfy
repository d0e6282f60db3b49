/**
 The control plane's QoS manager over the kernel's flow map, and the session modifications
 it applies.
 */
module QosManager {
  import opened Machine
  import opened FlowNames
  import opened QosFlows
  import opened QosSystem
  import Ingress
  import PfcpGroups
  import TokenBuckets

  datatype Arrival = Arrival(key: FlowKey, len: U64, now: U64)

  /**
   What the kernel does during one rate update or insertion: whether the read and the write fail,
   and the packets it handles between them.
   */
  datatype Env = Env(readFault: bool, writeFault: bool, during: seq<Arrival>)

  datatype Status = Done | AlreadyExists | NotFound | KernelFailed

  function AfterTraffic(m: Kernel, ps: seq<Arrival>): (m': Kernel)
    ensures m'.Keys == m.Keys
    decreases |ps|
  {
    if ps == [] then m else AfterTraffic(Ingress.Police(m, ps[0].key, ps[0].len, ps[0].now).1, ps[1..])
  }

  /** The parts of bpf.Manager that keep the QoS flow map. */
  class Manager {
    var qosFlowMap: Kernel

    constructor ()
      ensures qosFlowMap == map[]
    {
      qosFlowMap := map[];
    }

    method Put(key: FlowKey, value: Flow, fault: bool) returns (ok: bool)
      modifies this
      ensures ok == PutOk(old(qosFlowMap), key, fault)
      ensures qosFlowMap == if ok then old(qosFlowMap)[key := value] else old(qosFlowMap)
    {
      if fault || (key !in qosFlowMap && |qosFlowMap| >= MAX_QOS_FLOWS) {
        return false;
      }
      qosFlowMap := qosFlowMap[key := value];
      return true;
    }

    method AddQoSFlow(r: Record, fault: bool) returns (ok: bool)
      modifies this
      ensures ok == PutOk(old(qosFlowMap), KeyOf(r), fault)
      ensures qosFlowMap == if ok then old(qosFlowMap)[KeyOf(r) := NewEntry(r)] else old(qosFlowMap)
    {
      var burstBits := Wrap64(r.burstBytes * 8);
      var value := Flow(QOS_MAGIC, r.qfi, r.flowType, r.priority, 0, r.gbrBps, r.mbrBps,
                        TokenBuckets.Bucket(burstBits, 0, r.gbrBps, burstBits),
                        TokenBuckets.Bucket(burstBits, 0, r.mbrBps, burstBits), 0, 0, 0);
      ok := Put(FlowKey(r.teid, r.qfi), value, fault);
    }

    method RemoveQoSFlow(teid: U32, qfi: U8, fault: bool) returns (ok: bool)
      modifies this
      ensures ok == AccessOk(old(qosFlowMap), FlowKey(teid, qfi), fault)
      ensures qosFlowMap == if ok then old(qosFlowMap) - {FlowKey(teid, qfi)} else old(qosFlowMap)
    {
      var key := FlowKey(teid, qfi);
      if fault || key !in qosFlowMap {
        return false;
      }
      qosFlowMap := qosFlowMap - {key};
      return true;
    }

    method GetQoSFlow(teid: U32, qfi: U8, fault: bool) returns (r: Option<Flow>)
      ensures r == if AccessOk(qosFlowMap, FlowKey(teid, qfi), fault)
                   then Some(qosFlowMap[FlowKey(teid, qfi)]) else None
    {
      var key := FlowKey(teid, qfi);
      if fault || key !in qosFlowMap {
        return None;
      }
      return Some(qosFlowMap[key]);
    }

    /** The data plane at work while the control plane holds a copy of an entry. */
    method Traffic(ps: seq<Arrival>)
      modifies this
      ensures qosFlowMap == AfterTraffic(old(qosFlowMap), ps)
    {
      for i := 0 to |ps|
        invariant AfterTraffic(old(qosFlowMap), ps) == AfterTraffic(qosFlowMap, ps[i..])
      {
        qosFlowMap := Ingress.Police(qosFlowMap, ps[i].key, ps[i].len, ps[i].now).1;
        assert ps[i..][1..] == ps[i + 1..];
      }
    }

    /** The entry as it was read, with new rates, replaces the entry as it has become. */
    method UpdateQoSFlowRates(teid: U32, qfi: U8, gbrBps: U64, mbrBps: U64, env: Env) returns (ok: bool)
      modifies this
      ensures ok == RatesWritten(old(qosFlowMap), FlowKey(teid, qfi), env)
      ensures var key := FlowKey(teid, qfi); var m := AfterTraffic(old(qosFlowMap), env.during);
        qosFlowMap == if ok then m[key := WithRates(old(qosFlowMap)[key], gbrBps, mbrBps)] else m
    {
      var existing := GetQoSFlow(teid, qfi, env.readFault);
      Traffic(env.during);
      if existing.None? {
        return false;
      }
      var value := existing.value;
      value := value.(gbrBps := gbrBps);
      value := value.(mbrBps := mbrBps);
      value := value.(gbr := value.gbr.(rateBps := gbrBps));
      value := value.(mbr := value.mbr.(rateBps := mbrBps));
      ok := Put(FlowKey(teid, qfi), value, env.writeFault);
    }
  }

  predicate RatesWritten(m: Kernel, key: FlowKey, env: Env) {
    AccessOk(m, key, env.readFault) && PutOk(AfterTraffic(m, env.during), key, env.writeFault)
  }

  // ---------- Updates as runs of the system ----------

  function PacketEvents(ps: seq<Arrival>): seq<Event> {
    if ps == [] then [] else [Event.Packet(ps[0].key, ps[0].len, ps[0].now)] + PacketEvents(ps[1..])
  }

  function UpdateEvents(key: FlowKey, gbr: U64, mbr: U64, env: Env): seq<Event> {
    [BeginUpdate(key.teid, key.qfi, gbr, mbr, env.readFault)] + PacketEvents(env.during) + [CommitUpdate(env.writeFault)]
  }

  lemma {:induction false} TrafficRun(s: Sys, ps: seq<Arrival>, rest: seq<Event>)
    ensures Run(s, PacketEvents(ps) + rest) == Run(s.(kernel := AfterTraffic(s.kernel, ps)), rest)
    decreases |ps|
  {
    hide Ingress.Police;
    if ps == [] {
      assert PacketEvents(ps) + rest == rest;
      assert s.(kernel := s.kernel) == s;
    } else {
      var e := Event.Packet(ps[0].key, ps[0].len, ps[0].now);
      assert (PacketEvents(ps) + rest)[1..] == PacketEvents(ps[1..]) + rest;
      assert (PacketEvents(ps) + rest)[0] == e;
      TrafficRun(Step(s, e), ps[1..], rest);
    }
  }

  /** An update with the traffic during it, as one change of state. */
  lemma UpdateRun(s: Sys, key: FlowKey, gbr: U64, mbr: U64, env: Env)
    requires s.pending.None?
    ensures
      var s1 := BeginStep(s, key, gbr, mbr, env.readFault);
      Run(s, UpdateEvents(key, gbr, mbr, env))
      == CommitStep(s1.(kernel := AfterTraffic(s.kernel, env.during)), env.writeFault)
  {
    hide FlowName, AfterTraffic, CommitStep;
    var begin := BeginUpdate(key.teid, key.qfi, gbr, mbr, env.readFault);
    var commit := [CommitUpdate(env.writeFault)];
    var s1 := BeginStep(s, key, gbr, mbr, env.readFault);
    var es := UpdateEvents(key, gbr, mbr, env);
    assert es[0] == begin && es[1..] == PacketEvents(env.during) + commit;
    assert Step(s, begin) == s1 && s1.kernel == s.kernel;
    TrafficRun(s1, env.during, commit);
    assert commit[1..] == [];
  }

  /** After an update the flow is no longer stale exactly when the new rates reached the kernel. */
  lemma UpdateOutcome(s: Sys, key: FlowKey, gbr: U64, mbr: U64, env: Env)
    requires s.pending.None? && FlowName(key.teid, key.qfi) in s.flows
    ensures
      var s' := Run(s, UpdateEvents(key, gbr, mbr, env)); var name := FlowName(key.teid, key.qfi);
      var m := AfterTraffic(s.kernel, env.during);
      && s'.pending.None?
      && s'.flows == s.flows[name := s.flows[name].(gbrBps := gbr, mbrBps := mbr)]
      && if RatesWritten(s.kernel, key, env)
         then s'.kernel == m[key := WithRates(s.kernel[key], gbr, mbr)] && s'.stale == s.stale - {key}
         else s'.kernel == m && s'.stale == s.stale + {key}
  {
    hide FlowName, AfterTraffic, WithRates;
    UpdateRun(s, key, gbr, mbr, env);
  }

  // ---------- The manager ----------

  class QoSManager {
    var flows: map<string, Record>
    const bpf: Manager
    ghost var stale: set<FlowKey>

    constructor (bpf: Manager)
      requires bpf.qosFlowMap == map[]
      ensures this.bpf == bpf && State() == EMPTY
    {
      flows := map[];
      stale := {};
      this.bpf := bpf;
    }

    ghost function State(): Sys
      reads this, bpf
    {
      Sys(flows, bpf.qosFlowMap, None, stale)
    }

    method AddFlow(flow: Record, env: Env) returns (status: Status)
      modifies this, bpf
      ensures State() == Step(old(State()), Add(flow, env.writeFault))
      ensures status == AddStatus(old(State()), flow, env)
    {
      var name := FlowName(flow.teid, flow.qfi);
      if name in flows {
        return AlreadyExists;
      }
      var ok := bpf.AddQoSFlow(flow, env.writeFault);
      if !ok {
        return KernelFailed;
      }
      flows := flows[name := flow];
      stale := stale - {KeyOf(flow)};
      return Done;
    }

    method RemoveFlow(teid: U32, qfi: U8, fault: bool) returns (status: Status)
      modifies this, bpf
      ensures State() == Step(old(State()), Remove(teid, qfi, fault))
      ensures status == Done <==>
                FlowName(teid, qfi) in old(flows) && AccessOk(old(bpf.qosFlowMap), FlowKey(teid, qfi), fault)
      ensures status == NotFound <==> FlowName(teid, qfi) !in old(flows)
    {
      var name := FlowName(teid, qfi);
      if name !in flows {
        return NotFound;
      }
      var ok := bpf.RemoveQoSFlow(teid, qfi, fault);
      if !ok {
        return KernelFailed;
      }
      flows := flows - {name};
      stale := stale - {FlowKey(teid, qfi)};
      return Done;
    }

    /** The record changes first, and keeps the new rates even when the kernel refuses them. */
    method UpdateRates(teid: U32, qfi: U8, gbrBps: U64, mbrBps: U64, env: Env) returns (status: Status)
      modifies this, bpf
      ensures FlowName(teid, qfi) !in old(flows) ==> status == NotFound && State() == old(State())
      ensures FlowName(teid, qfi) in old(flows) ==>
                && State() == Run(old(State()), UpdateEvents(FlowKey(teid, qfi), gbrBps, mbrBps, env))
                && status == (if RatesWritten(old(bpf.qosFlowMap), FlowKey(teid, qfi), env) then Done else KernelFailed)
    {
      hide RatesWritten, UpdateEvents, Run, AfterTraffic, WithRates, FlowName;
      var name := FlowName(teid, qfi);
      if name !in flows {
        return NotFound;
      }
      UpdateOutcome(State(), FlowKey(teid, qfi), gbrBps, mbrBps, env);
      flows := flows[name := flows[name].(gbrBps := gbrBps)];
      flows := flows[name := flows[name].(mbrBps := mbrBps)];
      var ok := bpf.UpdateQoSFlowRates(teid, qfi, gbrBps, mbrBps, env);
      if !ok {
        stale := stale + {FlowKey(teid, qfi)};
        return KernelFailed;
      }
      stale := stale - {FlowKey(teid, qfi)};
      return Done;
    }

    /** Stops at the first rule that fails; the rules before it stay applied. */
    method ApplyPFCPModification(mod: PfcpGroups.SessionMod, envs: seq<Env>) returns (status: Status)
      requires |envs| == |mod.qers|
      modifies this, bpf
      ensures (State(), status) == Applied(old(State()), mod, envs, |mod.qers|)
    {
      hide Run, FlowName, UpdateEvents, RatesWritten, PutOk;
      for i := 0 to |mod.qers|
        invariant (State(), Done) == Applied(old(State()), mod, envs, i)
      {
        ghost var before := State();
        var qer := mod.qers[i];
        if qer.qfi == 0 {
          continue;
        }
        var teid := ResolveTeid(mod.pdrs, qer.qfi);
        if teid == 0 {
          continue;
        }
        var mbrBps := qer.mbrDl;
        var gbrBps := qer.gbrDl;
        if mbrBps == 0 {
          mbrBps := Wrap64(gbrBps as int * 2);
        }
        var flow := Record(teid, qer.qfi, ClassifyFlowType(qer.qfi), QfiToPriority(qer.qfi),
                           gbrBps, mbrBps, DefaultBurstBytes(mbrBps), 0, 0);
        assert Target(mod.pdrs, qer) == Some(flow);
        if FlowName(teid, qer.qfi) in flows {
          status := UpdateRates(teid, qer.qfi, gbrBps, mbrBps, envs[i]);
        } else {
          status := AddFlow(flow, envs[i]);
        }
        assert (State(), status) == AppliedOne(before, mod.pdrs, qer, envs[i]);
        if status != Done {
          FailureSticks(old(State()), mod, envs, i + 1, |mod.qers|);
          return;
        }
      }
      return Done;
    }

    method ResolveTeid(pdrs: seq<PfcpGroups.PdrInfo>, qfi: U8) returns (teid: U32)
      ensures teid == TeidFor(pdrs, qfi)
    {
      for i := 0 to |pdrs|
        invariant TeidFor(pdrs, qfi) == TeidFor(pdrs[i..], qfi)
      {
        if pdrs[i].pdi.qfi == qfi || pdrs[i].pdrId > 0 {
          return pdrs[i].pdi.teid;
        }
        assert pdrs[i..][1..] == pdrs[i + 1..];
      }
      return 0;
    }
  }

  function AddStatus(s: Sys, flow: Record, env: Env): Status {
    if FlowName(flow.teid, flow.qfi) in s.flows then AlreadyExists
    else if PutOk(s.kernel, KeyOf(flow), env.writeFault) then Done
    else KernelFailed
  }

  // ---------- What a modification asks for ----------

  function QfiToPriority(qfi: U8): U8 {
    match qfi case 1 => 1 case 2 => 3 case 5 => 5 case 7 => 4 case _ => 7
  }

  function ClassifyFlowType(qfi: U8): U8 {
    if qfi == QFI_VOVR || qfi == QFI_VIDEO then 0 else 1
  }

  /** Ten milliseconds at the given rate, in a product that wraps. */
  function DefaultBurstBytes(rate: U64): U64 {
    Wrap64(rate * 10) / 8000
  }

  /** The default burst is ten milliseconds at the rate, to the octet, exactly when the product does not wrap. */
  lemma DefaultBurstIsTenMilliseconds(rate: U64)
    ensures 800 * DefaultBurstBytes(rate) <= rate < 800 * (DefaultBurstBytes(rate) + 1) <==> rate * 10 < TWO64
  {
    if rate * 10 >= TWO64 {
      assert Wrap64(rate * 10) <= rate * 10 - TWO64;
    }
  }

  predicate PdrSelects(p: PfcpGroups.PdrInfo, qfi: U8) {
    p.pdi.qfi == qfi || p.pdrId > 0
  }

  /** The TEID of the first detection rule that selects the QFI; 0 when none does. */
  function TeidFor(pdrs: seq<PfcpGroups.PdrInfo>, qfi: U8): (teid: U32)
    ensures (forall i :: 0 <= i < |pdrs| ==> !PdrSelects(pdrs[i], qfi)) ==> teid == 0
    ensures forall i | 0 <= i < |pdrs| && PdrSelects(pdrs[i], qfi) ::
              (forall j :: 0 <= j < i ==> !PdrSelects(pdrs[j], qfi)) ==> teid == pdrs[i].pdi.teid
  {
    if pdrs == [] then 0
    else if PdrSelects(pdrs[0], qfi) then pdrs[0].pdi.teid
    else
      assert forall i :: 0 < i < |pdrs| ==> pdrs[i] == pdrs[1..][i - 1];
      TeidFor(pdrs[1..], qfi)
  }

  /** The flow an enforcement rule asks for, if it is not skipped. */
  function Target(pdrs: seq<PfcpGroups.PdrInfo>, qer: PfcpGroups.QerInfo): (r: Option<Record>)
    ensures r.Some? <==> qer.qfi != 0 && TeidFor(pdrs, qer.qfi) != 0
  {
    var teid := TeidFor(pdrs, qer.qfi);
    if qer.qfi == 0 || teid == 0 then None else
    var mbr := if qer.mbrDl == 0 then Wrap64(qer.gbrDl * 2) else qer.mbrDl;
    Some(Record(teid, qer.qfi, ClassifyFlowType(qer.qfi), QfiToPriority(qer.qfi), qer.gbrDl, mbr,
                DefaultBurstBytes(mbr), 0, 0))
  }

  function AppliedOne(s: Sys, pdrs: seq<PfcpGroups.PdrInfo>, qer: PfcpGroups.QerInfo, env: Env): (Sys, Status) {
    match Target(pdrs, qer)
    case None => (s, Done)
    case Some(r) =>
      if FlowName(r.teid, r.qfi) in s.flows then
        (Run(s, UpdateEvents(KeyOf(r), r.gbrBps, r.mbrBps, env)),
         if RatesWritten(s.kernel, KeyOf(r), env) then Done else KernelFailed)
      else
        (Step(s, Add(r, env.writeFault)), AddStatus(s, r, env))
  }

  /** The state after the first n enforcement rules, or after the first failure among them. */
  function Applied(s: Sys, mod: PfcpGroups.SessionMod, envs: seq<Env>, n: nat): (Sys, Status)
    requires n <= |mod.qers| == |envs|
  {
    if n == 0 then (s, Done) else
    var before := Applied(s, mod, envs, n - 1);
    if before.1 != Done then before else AppliedOne(before.0, mod.pdrs, mod.qers[n - 1], envs[n - 1])
  }

  lemma {:induction false} FailureSticks(s: Sys, mod: PfcpGroups.SessionMod, envs: seq<Env>, i: nat, n: nat)
    requires i <= n <= |mod.qers| == |envs| && Applied(s, mod, envs, i).1 != Done
    ensures Applied(s, mod, envs, n) == Applied(s, mod, envs, i)
    decreases n
  {
    hide AppliedOne;
    if i < n {
      FailureSticks(s, mod, envs, i, n - 1);
    }
  }

  // ---------- What a modification achieves ----------

  lemma OneKeepsAgreement(s: Sys, pdrs: seq<PfcpGroups.PdrInfo>, qer: PfcpGroups.QerInfo, env: Env)
    requires Agree(s) && s.pending.None?
    ensures Agree(AppliedOne(s, pdrs, qer, env).0) && AppliedOne(s, pdrs, qer, env).0.pending.None?
  {
    hide Agree, Run, AddStep, FlowName, UpdateEvents, RatesWritten, Target;
    var target := Target(pdrs, qer);
    if target.Some? {
      var r := target.value;
      if FlowName(r.teid, r.qfi) in s.flows {
        RunKeepsAgreement(s, UpdateEvents(KeyOf(r), r.gbrBps, r.mbrBps, env));
        UpdateOutcome(s, KeyOf(r), r.gbrBps, r.mbrBps, env);
      } else {
        StepKeepsAgreement(s, Add(r, env.writeFault));
        AddKeepsPending(s, r, env.writeFault);
      }
    }
  }

  lemma AddKeepsPending(s: Sys, r: Record, fault: bool)
    ensures AddStep(s, r, fault).pending == s.pending
  {
    hide FlowName;
  }

  /** Control plane and kernel still agree after a modification, also after one that fails half way. */
  lemma {:induction false} ApplyKeepsAgreement(s: Sys, mod: PfcpGroups.SessionMod, envs: seq<Env>, n: nat)
    requires n <= |mod.qers| == |envs| && Agree(s) && s.pending.None?
    ensures Agree(Applied(s, mod, envs, n).0) && Applied(s, mod, envs, n).0.pending.None?
    decreases n
  {
    hide Agree, AppliedOne;
    if n > 0 {
      ApplyKeepsAgreement(s, mod, envs, n - 1);
      OneKeepsAgreement(Applied(s, mod, envs, n - 1).0, mod.pdrs, mod.qers[n - 1], envs[n - 1]);
    }
  }

  predicate Asks(mod: PfcpGroups.SessionMod, i: nat, key: FlowKey)
    requires i < |mod.qers|
  {
    var t := Target(mod.pdrs, mod.qers[i]);
    t.Some? && KeyOf(t.value) == key
  }

  /** The last of the first n rules that asks for the flow. */
  function LastAsk(mod: PfcpGroups.SessionMod, n: nat, key: FlowKey): (r: Option<Record>)
    requires n <= |mod.qers|
    ensures r.Some? ==> KeyOf(r.value) == key
  {
    if n == 0 then None
    else if Asks(mod, n - 1, key) then Target(mod.pdrs, mod.qers[n - 1])
    else LastAsk(mod, n - 1, key)
  }

  /** The first of the first n rules that asks for the flow. */
  function FirstAsk(mod: PfcpGroups.SessionMod, n: nat, key: FlowKey): (r: Option<Record>)
    requires n <= |mod.qers|
    ensures r.Some? ==> KeyOf(r.value) == key
    ensures r.Some? <==> LastAsk(mod, n, key).Some?
  {
    if n == 0 then None
    else
      var earlier := FirstAsk(mod, n - 1, key);
      if earlier.Some? then earlier
      else if Asks(mod, n - 1, key) then Target(mod.pdrs, mod.qers[n - 1])
      else None
  }

  /** The record of a flow, if the control plane has one. */
  function Stored(s: Sys, key: FlowKey): Option<Record> {
    if FlowName(key.teid, key.qfi) in s.flows then Some(RecordOf(s, key)) else None
  }

  /**
   What n rules make of one flow: created by the first rule that asks for it unless it existed,
   its rates those of the last rule that asks for it, everything else as at its creation.
   */
  function Expected(before: Option<Record>, mod: PfcpGroups.SessionMod, n: nat, key: FlowKey): Option<Record>
    requires n <= |mod.qers|
  {
    var last := LastAsk(mod, n, key);
    if last.None? then before else
    var base := if before.Some? then before.value else FirstAsk(mod, n, key).value;
    Some(base.(gbrBps := last.value.gbrBps, mbrBps := last.value.mbrBps))
  }

  lemma OneStores(s: Sys, pdrs: seq<PfcpGroups.PdrInfo>, qer: PfcpGroups.QerInfo, env: Env, key: FlowKey)
    requires s.pending.None? && AppliedOne(s, pdrs, qer, env).1 == Done
    ensures var t := Target(pdrs, qer);
      Stored(AppliedOne(s, pdrs, qer, env).0, key) ==
      if t.Some? && KeyOf(t.value) == key then
        Some((if Stored(s, key).Some? then Stored(s, key).value else t.value)
               .(gbrBps := t.value.gbrBps, mbrBps := t.value.mbrBps))
      else Stored(s, key)
  {
    hide FlowName, Run, RatesWritten, UpdateEvents, NewEntry, Target;
    var target := Target(pdrs, qer);
    if target.Some? {
      var r := target.value;
      if KeyOf(r) != key && FlowName(r.teid, r.qfi) == FlowName(key.teid, key.qfi) {
        FlowNameInjective(r.teid, r.qfi, key.teid, key.qfi);
      }
      if FlowName(r.teid, r.qfi) in s.flows {
        UpdateOutcome(s, KeyOf(r), r.gbrBps, r.mbrBps, env);
      }
    }
  }

  lemma {:induction false} ApplyStores(s: Sys, mod: PfcpGroups.SessionMod, envs: seq<Env>, n: nat, key: FlowKey)
    requires n <= |mod.qers| == |envs| && Agree(s) && s.pending.None?
    requires Applied(s, mod, envs, n).1 == Done
    ensures Stored(Applied(s, mod, envs, n).0, key) == Expected(Stored(s, key), mod, n, key)
    decreases n
  {
    hide Agree, AppliedOne, Stored, Target;
    if n > 0 {
      ApplyStores(s, mod, envs, n - 1, key);
      ApplyKeepsAgreement(s, mod, envs, n - 1);
      OneStores(Applied(s, mod, envs, n - 1).0, mod.pdrs, mod.qers[n - 1], envs[n - 1], key);
    }
  }

  // ---------- The same from the fields of the message ----------

  /** The first detection rule with the QFI, or with any identifier but 0, names this TEID, and it is not 0. */
  ghost predicate Resolves(pdrs: seq<PfcpGroups.PdrInfo>, qfi: U8, teid: U32) {
    teid != 0 && exists k: nat :: IsFirstSelecting(pdrs, qfi, k) && pdrs[k].pdi.teid == teid
  }

  predicate IsFirstSelecting(pdrs: seq<PfcpGroups.PdrInfo>, qfi: U8, k: nat) {
    && k < |pdrs| && (pdrs[k].pdi.qfi == qfi || pdrs[k].pdrId > 0)
    && forall j :: 0 <= j < k ==> pdrs[j].pdi.qfi != qfi && pdrs[j].pdrId == 0
  }

  lemma ResolvesIs(pdrs: seq<PfcpGroups.PdrInfo>, qfi: U8, teid: U32)
    ensures Resolves(pdrs, qfi, teid) <==> teid != 0 && TeidFor(pdrs, qfi) == teid
  {
    hide TeidFor;
    if teid != 0 && TeidFor(pdrs, qfi) == teid {
      var k := FirstSelecting(pdrs, qfi);
      assert !PdrSelects(pdrs[k], qfi) || pdrs[k].pdi.teid == teid;
    }
    if Resolves(pdrs, qfi, teid) {
      var k: nat :| IsFirstSelecting(pdrs, qfi, k) && pdrs[k].pdi.teid == teid;
      assert PdrSelects(pdrs[k], qfi);
      assert forall j :: 0 <= j < k ==> !PdrSelects(pdrs[j], qfi);
    }
  }

  lemma {:induction false} FirstSelecting(pdrs: seq<PfcpGroups.PdrInfo>, qfi: U8) returns (k: nat)
    requires TeidFor(pdrs, qfi) != 0
    ensures IsFirstSelecting(pdrs, qfi, k)
  {
    if PdrSelects(pdrs[0], qfi) {
      k := 0;
    } else {
      var rest := FirstSelecting(pdrs[1..], qfi);
      k := rest + 1;
      assert forall j :: 0 < j < k ==> pdrs[j] == pdrs[1..][j - 1];
    }
  }

  /** The maximum rate a rule asks for: its downlink one, or twice its guaranteed one if it has none. */
  function MaximumRate(q: PfcpGroups.QerInfo): U64 {
    if q.mbrDl != 0 then q.mbrDl else q.gbrDl * 2 % 0x1_0000_0000_0000_0000
  }

  /** What a rule asks for, field by field. */
  lemma TargetIs(pdrs: seq<PfcpGroups.PdrInfo>, q: PfcpGroups.QerInfo, teid: U32)
    requires q.qfi != 0 && Resolves(pdrs, q.qfi, teid)
    ensures var t := Target(pdrs, q);
      && t.Some? && t.value.teid == teid && t.value.qfi == q.qfi
      && t.value.gbrBps == q.gbrDl && t.value.mbrBps == MaximumRate(q)
      && t.value.flowType == (if q.qfi == 1 || q.qfi == 2 then 0 else 1)
      && t.value.priority == (if q.qfi == 1 then 1 else if q.qfi == 2 then 3 else if q.qfi == 5 then 5
                              else if q.qfi == 7 then 4 else 7)
      && t.value.burstBytes == MaximumRate(q) * 10 % 0x1_0000_0000_0000_0000 / 8000
      && t.value.pdrId == 0 && t.value.qerId == 0
  {
    hide TeidFor;
    ResolvesIs(pdrs, q.qfi, teid);
  }

  /** A rule without a QFI, or whose QFI resolves to no TEID, is skipped. */
  lemma TargetNone(pdrs: seq<PfcpGroups.PdrInfo>, q: PfcpGroups.QerInfo)
    requires q.qfi == 0 || forall teid: U32 :: !Resolves(pdrs, q.qfi, teid)
    ensures Target(pdrs, q).None?
  {
    hide TeidFor;
    if q.qfi != 0 {
      ResolvesIs(pdrs, q.qfi, TeidFor(pdrs, q.qfi));
    }
  }

  /** Rule i is the last, or the first, of the first n that has the flow's QFI. */
  predicate LastWith(mod: PfcpGroups.SessionMod, n: nat, qfi: U8, i: nat)
    requires n <= |mod.qers|
  {
    i < n && mod.qers[i].qfi == qfi && forall j :: i < j < n ==> mod.qers[j].qfi != qfi
  }

  predicate FirstWith(mod: PfcpGroups.SessionMod, n: nat, qfi: U8, i: nat)
    requires n <= |mod.qers|
  {
    i < n && mod.qers[i].qfi == qfi && forall j :: 0 <= j < i ==> mod.qers[j].qfi != qfi
  }

  lemma AsksIs(mod: PfcpGroups.SessionMod, i: nat, key: FlowKey)
    requires i < |mod.qers| && key.qfi != 0 && Resolves(mod.pdrs, key.qfi, key.teid)
    ensures Asks(mod, i, key) <==> mod.qers[i].qfi == key.qfi
  {
    hide Resolves, TeidFor;
    ResolvesIs(mod.pdrs, key.qfi, key.teid);
  }

  lemma {:induction false} LastAskIs(mod: PfcpGroups.SessionMod, n: nat, key: FlowKey, i: nat)
    requires n <= |mod.qers| && key.qfi != 0 && Resolves(mod.pdrs, key.qfi, key.teid) && LastWith(mod, n, key.qfi, i)
    ensures LastAsk(mod, n, key) == Target(mod.pdrs, mod.qers[i])
    decreases n
  {
    hide Resolves, Asks, Target;
    AsksIs(mod, n - 1, key);
    if i < n - 1 {
      LastAskIs(mod, n - 1, key, i);
    }
  }

  /** A flow whose QFI no rule has, or whose TEID its QFI does not resolve to, is asked for by none. */
  lemma {:induction false} NotAsked(mod: PfcpGroups.SessionMod, n: nat, key: FlowKey)
    requires n <= |mod.qers|
    requires key.qfi == 0 || !Resolves(mod.pdrs, key.qfi, key.teid) || forall j :: 0 <= j < n ==> mod.qers[j].qfi != key.qfi
    ensures LastAsk(mod, n, key).None?
    decreases n
  {
    hide Resolves, TeidFor;
    ResolvesIs(mod.pdrs, key.qfi, key.teid);
    if n > 0 {
      NotAsked(mod, n - 1, key);
    }
  }

  lemma {:induction false} FirstAskIs(mod: PfcpGroups.SessionMod, n: nat, key: FlowKey, i: nat)
    requires n <= |mod.qers| && key.qfi != 0 && Resolves(mod.pdrs, key.qfi, key.teid) && FirstWith(mod, n, key.qfi, i)
    ensures FirstAsk(mod, n, key) == Target(mod.pdrs, mod.qers[i])
    decreases n
  {
    hide Resolves, Target;
    AsksIs(mod, n - 1, key);
    if i < n - 1 {
      FirstAskIs(mod, n - 1, key, i);
    } else {
      NoAskBefore(mod, n - 1, key);
      hide Asks;
    }
    TargetAsks(mod, i, key);
  }

  lemma TargetAsks(mod: PfcpGroups.SessionMod, i: nat, key: FlowKey)
    requires i < |mod.qers| && key.qfi != 0 && Resolves(mod.pdrs, key.qfi, key.teid) && mod.qers[i].qfi == key.qfi
    ensures Target(mod.pdrs, mod.qers[i]).Some?
  {
    hide Resolves;
    AsksIs(mod, i, key);
  }

  lemma {:induction false} NoAskBefore(mod: PfcpGroups.SessionMod, n: nat, key: FlowKey)
    requires n <= |mod.qers| && key.qfi != 0 && Resolves(mod.pdrs, key.qfi, key.teid)
    requires forall j :: 0 <= j < n ==> mod.qers[j].qfi != key.qfi
    ensures FirstAsk(mod, n, key).None?
    decreases n
  {
    hide Resolves, Asks, Target;
    if n > 0 {
      AsksIs(mod, n - 1, key);
      NoAskBefore(mod, n - 1, key);
    }
  }

  /** The kernel entry of a flow without its bucket levels and counters. */
  datatype Policy = Policy(gbrBps: U64, mbrBps: U64, gbrRate: U64, mbrRate: U64, gbrBurst: U64, mbrBurst: U64)

  function PolicyOf(f: Flow): Policy {
    Policy(f.gbrBps, f.mbrBps, f.gbr.rateBps, f.mbr.rateBps, f.gbr.burstSize, f.mbr.burstSize)
  }

  /**
   A modification that succeeds, whatever traffic interleaves with it: every flow ends as
   expected in the control plane, each flow asked for carries those rates in the kernel too and
   is not stale, and its burst is the one fixed when it was created.
   */
  lemma ModificationEffect(s: Sys, mod: PfcpGroups.SessionMod, envs: seq<Env>, key: FlowKey)
    requires |mod.qers| == |envs| && Agree(s) && s.pending.None?
    requires Applied(s, mod, envs, |mod.qers|).1 == Done
    ensures
      var n := |mod.qers|; var s' := Applied(s, mod, envs, n).0; var expected := Expected(Stored(s, key), mod, n, key);
      && Stored(s', key) == expected
      && (key in s'.kernel <==> expected.Some?)
      && (LastAsk(mod, n, key).Some? ==>
            && key in s'.kernel && key !in s'.stale
            && PolicyOf(s'.kernel[key]) ==
               Policy(expected.value.gbrBps, expected.value.mbrBps, expected.value.gbrBps, expected.value.mbrBps,
                      BurstBits(expected.value.burstBytes), BurstBits(expected.value.burstBytes)))
  {
    var n := |mod.qers|;
    ApplyStores(s, mod, envs, n, key);
    ApplyKeepsAgreement(s, mod, envs, n);
    if LastAsk(mod, n, key).Some? {
      AskedNotStale(s, mod, envs, n, key);
    }
    hide Applied, FlowName, BurstBits, LastAsk, FirstAsk;
    var s' := Applied(s, mod, envs, n).0;
    assert key in s'.kernel <==> Knows(s', key);
    if key in s'.kernel {
      assert EntryFits(RecordOf(s', key), s'.kernel[key]);
    }
  }

  /**
   The rates that end up stored: those of the last rule with the flow's QFI, its downlink guaranteed rate and
   its downlink maximum rate, or twice the former where it has no latter. A flow the modification
   creates is of guaranteed type for QFI 1 and 2 only and has ten milliseconds of burst at the rate
   of the first rule with its QFI; an existing one keeps everything but its rates.
   */
  lemma ModificationStores(s: Sys, mod: PfcpGroups.SessionMod, envs: seq<Env>, key: FlowKey, first: nat, last: nat)
    requires |mod.qers| == |envs| && Agree(s) && s.pending.None? && Applied(s, mod, envs, |mod.qers|).1 == Done
    requires key.qfi != 0 && Resolves(mod.pdrs, key.qfi, key.teid)
    requires FirstWith(mod, |mod.qers|, key.qfi, first) && LastWith(mod, |mod.qers|, key.qfi, last)
    ensures
      var s' := Applied(s, mod, envs, |mod.qers|).0; var gbr, mbr := mod.qers[last].gbrDl, MaximumRate(mod.qers[last]);
      && Stored(s', key).Some? && key in s'.kernel
      && s'.kernel[key].gbrBps == s'.kernel[key].gbr.rateBps == gbr
      && s'.kernel[key].mbrBps == s'.kernel[key].mbr.rateBps == mbr
      && (Stored(s, key).Some? ==> Stored(s', key) == Some(Stored(s, key).value.(gbrBps := gbr, mbrBps := mbr)))
      && (Stored(s, key).None? ==>
            Stored(s', key) == Some(Record(key.teid, key.qfi, if key.qfi == 1 || key.qfi == 2 then 0 else 1,
                                           if key.qfi == 1 then 1 else if key.qfi == 2 then 3 else if key.qfi == 5 then 5
                                           else if key.qfi == 7 then 4 else 7, gbr, mbr,
                                           MaximumRate(mod.qers[first]) * 10 % 0x1_0000_0000_0000_0000 / 8000, 0, 0)))
  {
    hide Agree, Applied, Resolves, Target, LastAsk, FirstAsk, Stored, BurstBits, MaximumRate;
    ModificationEffect(s, mod, envs, key);
    LastAskIs(mod, |mod.qers|, key, last);
    FirstAskIs(mod, |mod.qers|, key, first);
    TargetIs(mod.pdrs, mod.qers[last], key.teid);
    TargetIs(mod.pdrs, mod.qers[first], key.teid);
  }

  /** A modification that fails stops there: the rules up to the failing one have been applied, the later ones not. */
  lemma {:induction false} StopsAtFirstFailure(s: Sys, mod: PfcpGroups.SessionMod, envs: seq<Env>, n: nat) returns (i: nat)
    requires n <= |mod.qers| == |envs| && Applied(s, mod, envs, n).1 != Done
    ensures i < n && Applied(s, mod, envs, i).1 == Done
    ensures AppliedOne(Applied(s, mod, envs, i).0, mod.pdrs, mod.qers[i], envs[i]).1 != Done
    ensures Applied(s, mod, envs, n) == AppliedOne(Applied(s, mod, envs, i).0, mod.pdrs, mod.qers[i], envs[i])
    decreases n
  {
    hide AppliedOne;
    if Applied(s, mod, envs, n - 1).1 != Done {
      i := StopsAtFirstFailure(s, mod, envs, n - 1);
    } else {
      i := n - 1;
    }
  }

  lemma {:induction false} AskedNotStale(s: Sys, mod: PfcpGroups.SessionMod, envs: seq<Env>, n: nat, key: FlowKey)
    requires n <= |mod.qers| == |envs| && Agree(s) && s.pending.None?
    requires Applied(s, mod, envs, n).1 == Done && LastAsk(mod, n, key).Some?
    ensures key !in Applied(s, mod, envs, n).0.stale
    decreases n
  {
    hide Agree, AppliedOne, Target;
    ApplyKeepsAgreement(s, mod, envs, n - 1);
    OneClears(Applied(s, mod, envs, n - 1).0, mod.pdrs, mod.qers[n - 1], envs[n - 1], key);
    if !Asks(mod, n - 1, key) {
      AskedNotStale(s, mod, envs, n - 1, key);
    }
  }

  lemma OneClears(s: Sys, pdrs: seq<PfcpGroups.PdrInfo>, qer: PfcpGroups.QerInfo, env: Env, key: FlowKey)
    requires s.pending.None? && AppliedOne(s, pdrs, qer, env).1 == Done
    ensures var t := Target(pdrs, qer);
      key in AppliedOne(s, pdrs, qer, env).0.stale ==>
      key in s.stale && !(t.Some? && KeyOf(t.value) == key)
  {
    hide FlowName, Run, RatesWritten, UpdateEvents, NewEntry, Target;
    var target := Target(pdrs, qer);
    if target.Some? && FlowName(target.value.teid, target.value.qfi) in s.flows {
      UpdateOutcome(s, KeyOf(target.value), target.value.gbrBps, target.value.mbrBps, env);
    }
  }

  // ---------- Flows a modification does not ask for ----------

  predicate WithinBursts(f: Flow) {
    f.gbr.tokens <= f.gbr.burstSize && f.mbr.tokens <= f.mbr.burstSize
  }

  lemma PacketKeepsPolicy(f: Flow, qfi: U8, len: U64, now: U64)
    requires WithinBursts(f)
    ensures WithinBursts(AfterPacket(f, qfi, len, now))
    ensures PolicyOf(AfterPacket(f, qfi, len, now)) == PolicyOf(f)
  {
    hide TokenBuckets.Consumed, TokenBuckets.Accepts;
    TokenBuckets.ConsumeWithinBurst(f.gbr, len, now);
    TokenBuckets.ConsumeWithinBurst(f.mbr, len, now);
  }

  lemma {:induction false} TrafficKeepsPolicy(m: Kernel, ps: seq<Arrival>, key: FlowKey)
    requires key in m && WithinBursts(m[key])
    ensures PolicyOf(AfterTraffic(m, ps)[key]) == PolicyOf(m[key])
    decreases |ps|
  {
    hide AfterPacket, Verdict, PolicyOf;
    if ps != [] {
      if ps[0].key == key {
        PacketKeepsPolicy(m[key], key.qfi, ps[0].len, ps[0].now);
      }
      TrafficKeepsPolicy(Ingress.Police(m, ps[0].key, ps[0].len, ps[0].now).1, ps[1..], key);
    }
  }

  lemma InstalledWithinBursts(s: Sys, key: FlowKey)
    requires Agree(s) && key in s.kernel
    ensures WithinBursts(s.kernel[key])
  {
    assert Knows(s, key) && EntryFits(RecordOf(s, key), s.kernel[key]);
  }

  lemma OneLeavesOthers(s: Sys, pdrs: seq<PfcpGroups.PdrInfo>, qer: PfcpGroups.QerInfo, env: Env, key: FlowKey)
    requires Agree(s) && s.pending.None? && key in s.kernel
    requires var t := Target(pdrs, qer); !(t.Some? && KeyOf(t.value) == key)
    ensures var s' := AppliedOne(s, pdrs, qer, env).0;
      key in s'.kernel && PolicyOf(s'.kernel[key]) == PolicyOf(s.kernel[key])
  {
    InstalledWithinBursts(s, key);
    TrafficKeepsPolicy(s.kernel, env.during, key);
    hide Agree, FlowName, Run, RatesWritten, UpdateEvents, NewEntry, Target, PolicyOf, AfterTraffic;
    var target := Target(pdrs, qer);
    if target.Some? && FlowName(target.value.teid, target.value.qfi) in s.flows {
      UpdateOutcome(s, KeyOf(target.value), target.value.gbrBps, target.value.mbrBps, env);
    }
  }

  /** A flow no rule asks for keeps its kernel rates and bursts, whether or not the modification succeeds. */
  lemma {:induction false} UnaskedFlowsUntouched(s: Sys, mod: PfcpGroups.SessionMod, envs: seq<Env>, n: nat, key: FlowKey)
    requires n <= |mod.qers| == |envs| && Agree(s) && s.pending.None?
    requires key in s.kernel && LastAsk(mod, n, key).None?
    ensures var s' := Applied(s, mod, envs, n).0;
      key in s'.kernel && PolicyOf(s'.kernel[key]) == PolicyOf(s.kernel[key])
    decreases n
  {
    hide Agree, AppliedOne, Target, PolicyOf;
    if n > 0 {
      UnaskedFlowsUntouched(s, mod, envs, n - 1, key);
      ApplyKeepsAgreement(s, mod, envs, n - 1);
      OneLeavesOthers(Applied(s, mod, envs, n - 1).0, mod.pdrs, mod.qers[n - 1], envs[n - 1], key);
    }
  }

  /** Applying the same modification a second time leaves the control plane's flows as they are. */
  lemma ModificationIdempotent(s: Sys, mod: PfcpGroups.SessionMod, envs: seq<Env>, again: seq<Env>)
    requires |mod.qers| == |envs| == |again| && Agree(s) && s.pending.None?
    requires Applied(s, mod, envs, |mod.qers|).1 == Done
    requires Applied(Applied(s, mod, envs, |mod.qers|).0, mod, again, |mod.qers|).1 == Done
    ensures var s1 := Applied(s, mod, envs, |mod.qers|).0; var s2 := Applied(s1, mod, again, |mod.qers|).0;
      && s2.flows == s1.flows
      && forall key :: LastAsk(mod, |mod.qers|, key).Some? ==>
           key in s1.kernel && key in s2.kernel && PolicyOf(s2.kernel[key]) == PolicyOf(s1.kernel[key])
  {
    hide *;
    var n := |mod.qers|;
    var s1 := Applied(s, mod, envs, n).0;
    var s2 := Applied(s1, mod, again, n).0;
    ApplyKeepsAgreement(s, mod, envs, n);
    ApplyKeepsAgreement(s1, mod, again, n);
    forall key
      ensures Stored(s2, key) == Stored(s1, key)
      ensures LastAsk(mod, n, key).Some? ==>
                key in s1.kernel && key in s2.kernel && PolicyOf(s2.kernel[key]) == PolicyOf(s1.kernel[key])
    {
      ModificationEffect(s, mod, envs, key);
      ModificationEffect(s1, mod, again, key);
      ExpectedTwice(Stored(s, key), mod, n, key);
    }
    StoredDeterminesFlows(s1, s2);
  }

  lemma ExpectedTwice(before: Option<Record>, mod: PfcpGroups.SessionMod, n: nat, key: FlowKey)
    requires n <= |mod.qers|
    ensures Expected(Expected(before, mod, n, key), mod, n, key) == Expected(before, mod, n, key)
    ensures LastAsk(mod, n, key).Some? ==> Expected(before, mod, n, key).Some?
  {
  }

  lemma StoredDeterminesFlows(s1: Sys, s2: Sys)
    requires Agree(s1) && Agree(s2)
    requires forall key :: Stored(s2, key) == Stored(s1, key)
    ensures s2.flows == s1.flows
  {
    hide FlowName, EntryFits, SameRates;
    forall name | name in s1.flows
      ensures name in s2.flows && s2.flows[name] == s1.flows[name]
    {
      assert Stored(s2, KeyOf(s1.flows[name])) == Stored(s1, KeyOf(s1.flows[name]));
    }
    forall name | name in s2.flows
      ensures name in s1.flows
    {
      assert Stored(s2, KeyOf(s2.flows[name])) == Stored(s1, KeyOf(s2.flows[name]));
    }
  }
}
