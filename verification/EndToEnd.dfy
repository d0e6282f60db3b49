/**
 From the control plane's tables to the verdict on a packet.
 */
module EndToEnd {
  import opened Machine
  import PdrChecksum
  import PdrLookup
  import PdrSystem
  import KernelParse
  import Ingress
  import BucketRuns
  import Counters
  import QosFlows
  import QosSystem
  import TokenBuckets

  /** The kernel entry of any live owner verifies exactly under the condition on its own fields. */
  lemma OwnedEntryVerifiesIff(s: PdrSystem.Sys, teid: U32, mac: Bytes, ifIndex: U32, action: U8)
    requires PdrSystem.EntryFor(s, teid, mac, ifIndex, action)
    ensures var e := s.kernel[teid];
      PdrLookup.LookupSafe(Some(PdrLookup.Undisturbed(e)))
      == if action == 0 && PdrChecksum.Low(ifIndex) + e.qfi == PdrChecksum.High(ifIndex)
         then PdrLookup.Lookup(Some(e), 0, 0) else PdrLookup.Lookup(None, 4, 3)
  {
    hide PdrLookup.LookupSafe;
    WrittenChecksum(s.kernel[teid], mac, ifIndex, action);
    PdrLookup.GoEntryFoundIff(s.kernel[teid]);
  }

  lemma WrittenChecksum(e: PdrChecksum.Snapshot, mac: Bytes, ifIndex: U32, action: U8)
    requires e == PdrSystem.NewEntry(e.version, mac, ifIndex, e.qfi, action)
    ensures e.magic == PdrChecksum.PDR_MAGIC && e.checksum == PdrChecksum.GoChecksum(e)
    ensures e.ifindex == ifIndex && e.action == action && e.dstMac == PdrSystem.MacOf(mac)
  {
  }

  /** A live session can be reached by the data plane exactly when its QFI is 0. */
  lemma SessionReachableIff(s: PdrSystem.Sys, seid: U64)
    requires PdrSystem.Agree(s) && seid in s.sessions && seid !in s.stale
    ensures var x := s.sessions[seid];
      && x.teidUl in s.kernel
      && var e := s.kernel[x.teidUl];
         && e.dstMac == PdrSystem.MacOf(x.gnbMac) && e.action == 0 && e.ifindex == 0
         && PdrLookup.LookupSafe(Some(PdrLookup.Undisturbed(e)))
            == if x.qfi == 0 then PdrLookup.Lookup(Some(e), 0, 0) else PdrLookup.Lookup(None, 4, 3)
  {
    var x := s.sessions[seid];
    assert PdrSystem.SessionServed(s, x);
    hide PdrLookup.LookupSafe, PdrSystem.Agree, PdrSystem.EntryFor, PdrSystem.SessionServed;
    SessionEntry(s, x);
    WrittenChecksum(s.kernel[x.teidUl], x.gnbMac, 0, 0);
    PdrLookup.GoEntryFoundIff(s.kernel[x.teidUl]);
  }

  lemma SessionEntry(s: PdrSystem.Sys, x: PdrSystem.Session)
    requires PdrSystem.SessionServed(s, x)
    ensures x.teidUl in s.kernel
    ensures var e := s.kernel[x.teidUl];
      && e == PdrSystem.NewEntry(e.version, x.gnbMac, 0, e.qfi, 0)
      && (x.seid in s.stale || e.qfi == x.qfi)
  {
  }

  /**
   From the operation itself: in any agreeing state, creating a session on a fresh TEID succeeds
   whatever its QFI, yet only one without a QFI can then be reached.
   */
  lemma CreatedSessionReachableIff(s: PdrSystem.Sys, x: PdrSystem.Session, fault: PdrSystem.Fault)
    requires PdrSystem.Agree(s) && PdrSystem.Unshared(s)
    requires x.seid !in s.sessions && x.teidUl !in s.kernel && PdrSystem.PutOk(s.kernel, x.teidUl, fault.write)
    ensures var s' := PdrSystem.Step(s, PdrSystem.CreateSession(x, fault));
      && PdrSystem.Agree(s') && x.seid in s'.sessions && s'.sessions[x.seid] == x && x.seid !in s'.stale
      && x.teidUl in s'.kernel
      && (PdrLookup.LookupSafe(Some(PdrLookup.Undisturbed(s'.kernel[x.teidUl]))).found.Some? <==> x.qfi == 0)
  {
    assert s.stale <= s.sessions.Keys;
    hide PdrLookup.LookupSafe, PdrSystem.Agree, PdrSystem.Unshared, PdrSystem.NewEntry, PdrSystem.NextVersion;
    var create := PdrSystem.CreateSession(x, fault);
    PdrSystem.StepKeeps(s, create);
    SessionReachableIff(PdrSystem.Step(s, create), x.seid);
  }

  /** A drop or redirect rule is never read: its entry never verifies, and its packets are dropped as misses. */
  lemma DropAndRedirectRulesUnreachable(s: PdrSystem.Sys, id: U16)
    requires PdrSystem.Agree(s) && id in s.rules && s.rules[id].action != 0
    ensures var r := s.rules[id];
      && r.teid in s.kernel
      && PdrLookup.LookupSafe(Some(PdrLookup.Undisturbed(s.kernel[r.teid]))) == PdrLookup.Lookup(None, 4, 3)
  {
    var r := s.rules[id];
    assert PdrSystem.RuleServed(s, r);
    hide PdrLookup.LookupSafe;
    OwnedEntryVerifiesIff(s, r.teid, r.dstMac, r.outIfIndex, r.action);
  }

  /**
   A user packet that looks up an undisturbed entry of a live session with a QFI is dropped and
   booked as a miss after three retries and four torn reads, and no flow is charged for it.
   */
  lemma SessionWithQfiIsBlackholed(s: PdrSystem.Sys, seid: U64, frame: KernelParse.Frame, env: Ingress.Env,
                                   flows: Ingress.Flows)
    requires PdrSystem.Agree(s) && seid in s.sessions && seid !in s.stale && s.sessions[seid].qfi != 0
    requires s.sessions[seid].teidUl in s.kernel
    requires env.entry == Some(PdrLookup.Undisturbed(s.kernel[s.sessions[seid].teidUl]))
    requires KernelParse.Parse(frame).Gtpu? && frame[KernelParse.Parse(frame).at + 1] == Ingress.MSG_TYPE_GPDU
    ensures Ingress.Process(frame, env, flows)
            == Ingress.Outcome(Ingress.Drop, frame, Some(Counters.Report(1, |frame|, 4, 0, 3, 0)), flows)
  {
    hide PdrLookup.LookupSafe, KernelParse.Parse, PdrSystem.Agree;
    SessionReachableIff(s, seid);
  }

  /** The packet carries no QFI, or its flow lets it pass. */
  predicate NotRejected(frame: KernelParse.Frame, at: nat, env: Ingress.Env, flows: Ingress.Flows)
    requires at + 8 <= |frame|
  {
    var qfi := KernelParse.ExtractQfi(frame, at);
    qfi == 0 || Ingress.Police(flows, QosFlows.FlowKey(Ingress.RawTeid(frame, at), qfi), |frame|, env.now).0 == 0
  }

  /**
   The counterpart: a user packet of a live session without a QFI that is not rejected, has no outer
   IP options and holds an inner Ethernet header leaves as that inner frame, addressed to the gNB.
   */
  lemma SessionWithoutQfiIsServed(s: PdrSystem.Sys, seid: U64, frame: KernelParse.Frame, env: Ingress.Env,
                                  flows: Ingress.Flows)
    requires PdrSystem.Agree(s) && seid in s.sessions && seid !in s.stale && s.sessions[seid].qfi == 0
    requires s.sessions[seid].teidUl in s.kernel
    requires env.entry == Some(PdrLookup.Undisturbed(s.kernel[s.sessions[seid].teidUl])) && !env.headFault
    requires var p := KernelParse.Parse(frame);
      && p.Gtpu? && frame[p.at + 1] == Ingress.MSG_TYPE_GPDU && p.ihl == 5
      && p.at + p.hdrLen + 14 <= |frame| && NotRejected(frame, p.at, env, flows)
    ensures var p := KernelParse.Parse(frame); var o := Ingress.Process(frame, env, flows);
      && o.action == Ingress.Tx
      && o.packet == PdrSystem.MacOf(s.sessions[seid].gnbMac) + frame[p.at + p.hdrLen + 6..]
      && o.report == Some(Counters.Report(0, |frame|, 0, 0, 0, 0))
  {
    hide PdrLookup.LookupSafe, KernelParse.Parse, KernelParse.ExtractQfi, Ingress.Police, Ingress.RawTeid,
         PdrSystem.MacOf, PdrSystem.Agree;
    SessionReachableIff(s, seid);
  }

  /**
   Which packets escape policing: with the extension flag alone and no 0x85 in the low octet of the
   sequence number, a packet leaves every flow as it was, whatever QFI its extension header carries.
   */
  lemma ExtensionFlagAloneIsUnpoliced(frame: KernelParse.Frame, env: Ingress.Env, flows: Ingress.Flows)
    requires KernelParse.Parse(frame).Gtpu?
    requires var at := KernelParse.Parse(frame).at;
      && KernelParse.HasExtension(frame[at]) && !KernelParse.HasSequenceOrNPdu(frame[at]) && frame[at + 9] != 0x85
    ensures Ingress.PolicedFlow(frame, env) == None
    ensures Ingress.Process(frame, env, flows).flows == flows
  {
    hide PdrLookup.LookupSafe, Ingress.Process, KernelParse.Parse, Ingress.Police, Ingress.RawTeid;
    Ingress.ProcessPolices(frame, env, flows);
  }

  // ---------- Frames and control operations together ----------

  /** What happens to the running gateway: an operation on the flows, or a frame. */
  datatype WireEvent = Control(e: QosSystem.Event) | Frame(frame: KernelParse.Frame, env: Ingress.Env)

  function WireStep(s: QosSystem.Sys, w: WireEvent): QosSystem.Sys {
    match w
    case Control(e) => QosSystem.Step(s, e)
    case Frame(frame, env) => s.(kernel := Ingress.Process(frame, env, s.kernel).flows)
  }

  function WireRun(s: QosSystem.Sys, ws: seq<WireEvent>): QosSystem.Sys
    decreases |ws|
  {
    if ws == [] then s else WireRun(WireStep(s, ws[0]), ws[1..])
  }

  /** The QoS system's view of an event: a frame that is not policed is none. */
  function SystemEvents(w: WireEvent): seq<QosSystem.Event> {
    match w
    case Control(e) => [e]
    case Frame(frame, env) =>
      match Ingress.PolicedFlow(frame, env)
      case None => []
      case Some(key) => [QosSystem.Event.Packet(key, |frame|, env.now)]
  }

  function SystemView(ws: seq<WireEvent>): seq<QosSystem.Event> {
    if ws == [] then [] else SystemEvents(ws[0]) + SystemView(ws[1..])
  }

  /** A frame that names the flow and is forwarded. */
  predicate ForwardedFor(s: QosSystem.Sys, w: WireEvent, key: QosFlows.FlowKey) {
    w.Frame? && Ingress.NamedFlow(w.frame) == Some(key)
    && Ingress.Forwarded(Ingress.Process(w.frame, w.env, s.kernel))
  }

  /** The bits of all frames of the flow that leave the gateway along a run. */
  function WireForwarded(s: QosSystem.Sys, ws: seq<WireEvent>, key: QosFlows.FlowKey): nat
    decreases |ws|
  {
    if ws == [] then 0 else
    (if ForwardedFor(s, ws[0], key) then 8 * |ws[0].frame| else 0) + WireForwarded(WireStep(s, ws[0]), ws[1..], key)
  }

  /** Control operations only add, remove and update flows; updates of this one stay between 1 and r. */
  predicate UpdatesWithin(ws: seq<WireEvent>, key: QosFlows.FlowKey, r: nat) {
    forall i :: 0 <= i < |ws| && ws[i].Control? ==> !ws[i].e.Packet? && QosSystem.UpdatesWithin([ws[i].e], key, r)
  }

  /** One event of the gateway is at most one of the QoS system, which admits what the gateway forwards. */
  lemma WireStepProjects(s: QosSystem.Sys, w: WireEvent, rest: seq<QosSystem.Event>, key: QosFlows.FlowKey)
    requires key.qfi != 0 && (w.Control? ==> !w.e.Packet?)
    ensures var es := SystemEvents(w);
      && QosSystem.Run(s, es + rest) == QosSystem.Run(WireStep(s, w), rest)
      && (if ForwardedFor(s, w, key) then 8 * |w.frame| else 0) + QosSystem.FlowForwarded(WireStep(s, w), rest, key)
         <= QosSystem.FlowForwarded(s, es + rest, key)
  {
    hide Ingress.Process, Ingress.Police, Ingress.PolicedFlow, Ingress.NamedFlow, QosSystem.AddStep,
         QosSystem.RemoveStep, QosSystem.BeginStep, QosSystem.CommitStep;
    var es := SystemEvents(w);
    if w.Frame? {
      Ingress.ProcessPolices(w.frame, w.env, s.kernel);
    }
    if es == [] {
      assert es + rest == rest;
      assert s.(kernel := s.kernel) == s;
    } else {
      assert (es + rest)[0] == es[0] && (es + rest)[1..] == rest;
    }
  }

  /** A run of the gateway is a run of the QoS system. */
  lemma {:induction false} WireRunProjects(s: QosSystem.Sys, ws: seq<WireEvent>, key: QosFlows.FlowKey, r: nat)
    requires key.qfi != 0 && UpdatesWithin(ws, key, r)
    ensures WireRun(s, ws) == QosSystem.Run(s, SystemView(ws))
    ensures WireForwarded(s, ws, key) <= QosSystem.FlowForwarded(s, SystemView(ws), key)
    decreases |ws|
  {
    hide WireStep, SystemEvents, ForwardedFor, QosSystem.Step, Ingress.Police;
    if ws == [] {
    } else {
      UpdatesTail(ws, key, r);
      WireStepProjects(s, ws[0], SystemView(ws[1..]), key);
      WireRunProjects(WireStep(s, ws[0]), ws[1..], key, r);
    }
  }

  lemma UpdatesTail(ws: seq<WireEvent>, key: QosFlows.FlowKey, r: nat)
    requires UpdatesWithin(ws, key, r) && ws != []
    ensures UpdatesWithin(ws[1..], key, r)
    ensures ws[0].Control? ==> !ws[0].e.Packet? && QosSystem.UpdatesWithin([ws[0].e], key, r)
  {
  }

  lemma EventsWithin(w: WireEvent, key: QosFlows.FlowKey, r: nat)
    requires w.Control? ==> QosSystem.UpdatesWithin([w.e], key, r)
    ensures QosSystem.UpdatesWithin(SystemEvents(w), key, r)
  {
    hide Ingress.PolicedFlow;
  }

  lemma WithinConcat(a: seq<QosSystem.Event>, b: seq<QosSystem.Event>, key: QosFlows.FlowKey, r: nat)
    requires QosSystem.UpdatesWithin(a, key, r) && QosSystem.UpdatesWithin(b, key, r)
    ensures QosSystem.UpdatesWithin(a + b, key, r)
  {
  }

  /** Frames are short, so the system's view of the run keeps to the limits of its rate bound. */
  lemma {:induction false} ViewWithin(ws: seq<WireEvent>, key: QosFlows.FlowKey, r: nat)
    requires UpdatesWithin(ws, key, r)
    ensures QosSystem.UpdatesWithin(SystemView(ws), key, r)
    decreases |ws|
  {
    if ws == [] {
    } else {
      hide UpdatesWithin, QosSystem.UpdatesWithin, SystemEvents;
      UpdatesTail(ws, key, r);
      ViewWithin(ws[1..], key, r);
      EventsWithin(ws[0], key, r);
      WithinConcat(SystemEvents(ws[0]), SystemView(ws[1..]), key, r);
    }
  }

  /**
   The rate bound on the wire. Over every run of frames and control operations in which the flow stays
   installed, from any state of the system with no update under way, the frames that name a
   non-voice flow with a maximum rate and leave the gateway carry at most its burst, once more
   for every backward timestamp and every committed update, plus the highest maximum rate times
   the forward time between its policed packets.
   */
  lemma WireRateBound(s: QosSystem.Sys, ws: seq<WireEvent>, key: QosFlows.FlowKey, r: nat)
    requires QosSystem.Agree(s) && s.pending.None? && key in s.kernel
    requires QosSystem.Kept(s, SystemView(ws), key) && key.qfi != 0 && key.qfi != QosFlows.QFI_VOVR
    requires 0 < s.kernel[key].mbrBps <= r && UpdatesWithin(ws, key, r)
    ensures var view := QosFlows.MbrView(QosSystem.Trace(s, SystemView(ws), key));
      WireForwarded(s, ws, key)
      <= s.kernel[key].mbr.burstSize * (1 + BucketRuns.BackwardSteps(None, view) + BucketRuns.Commits(view))
         + r * BucketRuns.ForwardGaps(None, view) / TokenBuckets.NS_PER_SEC
  {
    hide *;
    WireRunProjects(s, ws, key, r);
    ViewWithin(ws, key, r);
    QosSystem.SystemRateBound(s, SystemView(ws), key, r);
  }

  /** Frames keep the two sides in agreement just as control operations do. */
  lemma {:induction false} WireKeepsAgreement(s: QosSystem.Sys, ws: seq<WireEvent>)
    requires QosSystem.Agree(s)
    ensures QosSystem.Agree(WireRun(s, ws))
    decreases |ws|
  {
    hide QosSystem.Agree, WireStep, QosSystem.Step;
    if ws != [] {
      OneWireEventKeeps(s, ws[0]);
      WireKeepsAgreement(WireStep(s, ws[0]), ws[1..]);
    }
  }

  lemma OneWireEventKeeps(s: QosSystem.Sys, w: WireEvent)
    requires QosSystem.Agree(s)
    ensures QosSystem.Agree(WireStep(s, w))
  {
    hide QosSystem.Agree, Ingress.Process, Ingress.Police, Ingress.PolicedFlow;
    match w {
      case Control(e) => QosSystem.StepKeepsAgreement(s, e);
      case Frame(frame, env) =>
        Ingress.ProcessPolices(frame, env, s.kernel);
        var key := Ingress.PolicedFlow(frame, env);
        if key.Some? {
          QosSystem.StepKeepsAgreement(s, QosSystem.Event.Packet(key.value, |frame|, env.now));
        } else {
          assert s.(kernel := s.kernel) == s;
        }
    }
  }
}
