/**
 The ingress program: parse, look the tunnel up, police the flow, strip the outer headers, count.
 */
module Ingress {
  import opened Machine
  import opened Counters
  import opened KernelParse
  import PdrChecksum
  import PdrLookup
  import QosFlows

  const MSG_TYPE_GPDU: U8 := 0xFF
  const PDR_ACTION_DROP: U8 := 1
  const PDR_ACTION_REDIRECT: U8 := 2

  datatype XdpAction = Aborted | Drop | Pass | Tx | Redirect

  /**
   What the outside decides for one packet: what the rounds of its PDR lookup would read (None when
   no entry exists), the clock, whether moving the packet start fails, whether the redirect
   finds a target.
   */
  datatype Env = Env(entry: Option<PdrLookup.Rounds>, now: U64, headFault: bool, hasTarget: bool)

  type Flows = map<QosFlows.FlowKey, QosFlows.Flow>

  /** The TEID as the data plane uses it: four octets of the packet read as a machine word. */
  function RawTeid(frame: Frame, at: nat): U32
    requires at + 8 <= |frame|
  {
    PdrChecksum.Word(PdrChecksum.LE16(frame[at + 4], frame[at + 5]), PdrChecksum.LE16(frame[at + 6], frame[at + 7]))
  }

  function Police(flows: Flows, key: QosFlows.FlowKey, len: U64, now: U64): (r: (int, Flows))
    ensures r.0 == 0 || r.0 == 2 || r.0 == 3
    ensures r.1.Keys == flows.Keys
    ensures key !in flows ==> r == (0, flows)
    ensures forall k :: k in flows && k != key ==> r.1[k] == flows[k]
  {
    if key !in flows then (0, flows)
    else (QosFlows.Verdict(flows[key], key.qfi, len, now),
          flows[key := QosFlows.AfterPacket(flows[key], key.qfi, len, now)])
  }

  /** The octets removed assume an outer IP header without options. */
  function StripLen(hdrLen: nat): nat {
    ETH_HLEN + IP_HLEN + UDP_HLEN + hdrLen
  }

  /** The packet without its outer headers and with a new destination address; None when it is too short. */
  function Decapsulated(frame: Frame, hdrLen: nat, pdr: PdrChecksum.Snapshot, headFault: bool): Option<Bytes> {
    var strip := StripLen(hdrLen);
    if strip + ETH_HLEN > |frame| || headFault then None
    else Some(pdr.dstMac + frame[strip + 6..])
  }

  function ForwardAction(pdr: PdrChecksum.Snapshot, hasTarget: bool): XdpAction {
    if pdr.action == PDR_ACTION_REDIRECT && pdr.ifindex > 0 then
      if hasTarget then Redirect else Aborted
    else Tx
  }

  /** The verdict on one packet, the packet as it leaves, what is counted, and the flows afterwards. */
  datatype Outcome = Outcome(action: XdpAction, packet: Bytes, report: Option<Report>, flows: Flows)

  function Process(frame: Frame, env: Env, flows: Flows): Outcome {
    match Parse(frame)
    case Malformed => Outcome(Drop, frame, Some(Report(2, |frame|, 0, 0, 0, 0)), flows)
    case NotGtpu => Outcome(Pass, frame, None, flows)
    case Gtpu(_, at, hdrLen) =>
      if frame[at + 1] != MSG_TYPE_GPDU then Outcome(Pass, frame, None, flows)
      else ProcessTunnelled(frame, at, hdrLen, env, flows)
  }

  function ProcessTunnelled(frame: Frame, at: nat, hdrLen: nat, env: Env, flows: Flows): Outcome
    requires at + 8 <= |frame|
  {
    var l := PdrLookup.LookupSafe(env.entry);
    if l.found.None? then
      Outcome(Drop, frame, Some(Report(1, |frame|, l.tornReads, 0, l.retries, 0)), flows)
    else if l.found.value.action == PDR_ACTION_DROP then
      Outcome(Drop, frame, Some(Report(2, |frame|, l.tornReads, 0, l.retries, 0)), flows)
    else
      var qfi := ExtractQfi(frame, at);
      var policed := if qfi == 0 then (0, flows)
                     else Police(flows, QosFlows.FlowKey(RawTeid(frame, at), qfi), |frame|, env.now);
      if policed.0 != 0 then
        Outcome(Drop, frame, Some(Report(2, |frame|, l.tornReads, 0, l.retries, policed.0)), policed.1)
      else match Decapsulated(frame, hdrLen, l.found.value, env.headFault)
        case None => Outcome(Drop, frame, Some(Report(2, |frame|, l.tornReads, 0, l.retries, 0)), policed.1)
        case Some(inner) =>
          Outcome(ForwardAction(l.found.value, env.hasTarget), inner,
                  Some(Report(0, |frame|, l.tornReads, 0, l.retries, 0)), policed.1)
  }

  /** One CPU's view of the program: its counters and the QoS flow map. */
  class DataPlane {
    const stats: Stats
    var flows: Flows

    constructor ()
      ensures flows == map[] && stats.Value() == ZERO && fresh(stats)
    {
      flows := map[];
      stats := new Stats();
    }

    function Counted(c: Counters, report: Option<Report>): Counters {
      if report.None? then c else Wrapped(Added(c, report.value))
    }

    /** upf_xdp_ingress */
    method UpfXdpIngress(frame: Frame, env: Env) returns (action: XdpAction, packet: Bytes)
      modifies this, stats
      ensures var o := Process(frame, env, old(flows));
        && action == o.action && packet == o.packet && flows == o.flows
        && stats.Value() == Counted(old(stats.Value()), o.report)
    {
      hide ProcessTunnelled, GtpuLen, Wrapped, Added, BE16;
      packet := frame;
      var nh := new HdrCursor(frame);
      var ethType := nh.ParseEthHdr();
      if ethType < 0 {
        stats.UpdateStatsQos(Report(2, |frame|, 0, 0, 0, 0));
        return Drop, packet;
      }
      if ethType != ETH_P_IP {
        return Pass, packet;
      }
      var ipProto := nh.ParseIpHdr();
      if ipProto < 0 {
        stats.UpdateStatsQos(Report(2, |frame|, 0, 0, 0, 0));
        return Drop, packet;
      }
      if ipProto != IPPROTO_UDP {
        return Pass, packet;
      }
      var udp := nh.pos;
      var udpOk := nh.ParseUdpHdr();
      if udpOk < 0 {
        stats.UpdateStatsQos(Report(2, |frame|, 0, 0, 0, 0));
        return Drop, packet;
      }
      if !IsGtpuPorts(BE16(frame[udp..udp + 2]), BE16(frame[udp + 2..udp + 4])) {
        return Pass, packet;
      }
      var at := nh.pos;
      var gtpuOk, hdrLen := nh.ParseGtpuHdr();
      if gtpuOk < 0 {
        stats.UpdateStatsQos(Report(2, |frame|, 0, 0, 0, 0));
        return Drop, packet;
      }
      assert Parse(frame).Gtpu? && Parse(frame).at == at && Parse(frame).hdrLen == hdrLen;
      if frame[at + 1] != MSG_TYPE_GPDU {
        return Pass, packet;
      }
      action, packet := Tunnelled(frame, at, hdrLen, env);
    }

    /** The rest of upf_xdp_ingress, for a packet that carries user data. */
    method Tunnelled(frame: Frame, at: nat, hdrLen: nat, env: Env) returns (action: XdpAction, packet: Bytes)
      requires at + 8 <= |frame|
      modifies this, stats
      ensures var o := ProcessTunnelled(frame, at, hdrLen, env, old(flows));
        && action == o.action && packet == o.packet && flows == o.flows
        && stats.Value() == Counted(old(stats.Value()), o.report)
    {
      hide PdrLookup.LookupSafe, ExtractQfi, Wrapped, Added, RawTeid, QosFlows.Verdict, QosFlows.AfterPacket;
      packet := frame;
      var l := PdrLookup.PdrLookupSafe(env.entry);
      if l.found.None? {
        stats.UpdateStatsQos(Report(1, |frame|, l.tornReads, 0, l.retries, 0));
        return Drop, packet;
      }
      var pdr := l.found.value;
      if pdr.action == PDR_ACTION_DROP {
        stats.UpdateStatsQos(Report(2, |frame|, l.tornReads, 0, l.retries, 0));
        return Drop, packet;
      }
      var qosResult := 0;
      var qfi := ExtractQfi(frame, at);
      if qfi > 0 {
        qosResult := EnforceTrafficShaping(RawTeid(frame, at), qfi, |frame|, env.now);
        if qosResult == 2 || qosResult == 3 {
          stats.UpdateStatsQos(Report(2, |frame|, l.tornReads, 0, l.retries, qosResult));
          return Drop, packet;
        }
      }
      var inner := Decapsulated(frame, hdrLen, pdr, env.headFault);
      if inner.None? {
        stats.UpdateStatsQos(Report(2, |frame|, l.tornReads, 0, l.retries, qosResult));
        return Drop, packet;
      }
      stats.UpdateStatsQos(Report(0, |frame|, l.tornReads, 0, l.retries, qosResult));
      return ForwardAction(pdr, env.hasTarget), inner.value;
    }

    /** qos_enforce_traffic_shaping: the entry is updated in place and stays under its key. */
    method EnforceTrafficShaping(teid: U32, qfi: U8, len: U64, now: U64) returns (result: int)
      modifies this
      ensures (result, flows) == Police(old(flows), QosFlows.FlowKey(teid, qfi), len, now)
    {
      var key := QosFlows.FlowKey(teid, qfi);
      if key !in flows {
        return 0;
      }
      var entry := new QosFlows.QosFlow(flows[key]);
      result := entry.EnforceTrafficShaping(qfi, len, now);
      flows := flows[key := entry.Value()];
    }
  }

  // ---------- The outcome, octet by octet ----------

  /** A UDP header at u with source or destination port 2152. */
  predicate GtpuPortAt(frame: Frame, u: nat)
    requires u + 8 <= |frame|
  {
    (frame[u] == 0x08 && frame[u + 1] == 0x68) || (frame[u + 2] == 0x08 && frame[u + 3] == 0x68)
  }

  /** An Ethernet frame that carries an IPv4 packet whose header, options included, is all there. */
  predicate HasIpv4(frame: Frame) {
    && |frame| >= 34 && frame[12] == 0x08 && frame[13] == 0x00
    && frame[14] % 16 >= 5 && 14 + 4 * (frame[14] % 16) <= |frame|
  }

  /** Such a packet with a complete UDP header on a GTP-U port. */
  predicate HasGtpuPort(frame: Frame) {
    && HasIpv4(frame) && frame[23] == 17
    && 14 + 4 * (frame[14] % 16) + 8 <= |frame| && GtpuPortAt(frame, 14 + 4 * (frame[14] % 16))
  }

  /** Where the GTP-U header of such a packet starts. */
  function GtpuAt(frame: Frame): nat
    requires HasGtpuPort(frame)
  {
    14 + 4 * (frame[14] % 16) + 8
  }

  lemma PortOctets(b: Bytes)
    requires |b| == 2
    ensures BE16(b) == 0x0868 <==> b[0] == 0x08 && b[1] == 0x68
    ensures BE16(b) == 0x0800 <==> b[0] == 0x08 && b[1] == 0x00
  {
  }

  /** Frames that are none of the gateway's business go up the stack uncounted, and no flow is touched. */
  lemma OtherTrafficPasses(frame: Frame, env: Env, flows: Flows)
    requires
      || (|frame| >= 14 && !(frame[12] == 0x08 && frame[13] == 0x00))
      || (HasIpv4(frame) && frame[23] != 17)
      || (HasIpv4(frame) && 14 + 4 * (frame[14] % 16) + 8 <= |frame| && !GtpuPortAt(frame, 14 + 4 * (frame[14] % 16)))
      || (HasGtpuPort(frame) && GtpuLen(frame, GtpuAt(frame)).Some? && frame[GtpuAt(frame) + 1] != 0xFF)
    ensures Process(frame, env, flows) == Outcome(Pass, frame, None, flows)
  {
    hide GtpuLen, ProcessTunnelled, BE16;
    ParsedPorts(frame);
  }

  /** Frames cut short, or with a header the parsers refuse, are dropped and counted once. */
  lemma MalformedIsDropped(frame: Frame, env: Env, flows: Flows)
    requires
      || |frame| < 14
      || (frame[12] == 0x08 && frame[13] == 0x00 && !HasIpv4(frame))
      || (HasIpv4(frame) && frame[23] == 17 && 14 + 4 * (frame[14] % 16) + 8 > |frame|)
      || (HasGtpuPort(frame) && GtpuLen(frame, GtpuAt(frame)).None?)
    ensures Process(frame, env, flows) == Outcome(Drop, frame, Some(Report(2, |frame|, 0, 0, 0, 0)), flows)
  {
    hide GtpuLen, ProcessTunnelled, BE16;
    ParsedPorts(frame);
  }

  lemma ParsedPorts(frame: Frame)
    ensures |frame| >= 14 ==> (BE16(frame[12..14]) == 0x0800 <==> frame[12] == 0x08 && frame[13] == 0x00)
    ensures HasIpv4(frame) && 14 + 4 * (frame[14] % 16) + 8 <= |frame| ==>
              var u := 14 + 4 * (frame[14] % 16);
              GtpuPortAt(frame, u) <==> BE16(frame[u + 2..u + 4]) == 0x0868 || BE16(frame[u..u + 2]) == 0x0868
  {
    hide BE16;
    if |frame| >= 14 {
      PortOctets(frame[12..14]);
    }
    if HasIpv4(frame) && 14 + 4 * (frame[14] % 16) + 8 <= |frame| {
      var u := 14 + 4 * (frame[14] % 16);
      PortOctets(frame[u..u + 2]);
      PortOctets(frame[u + 2..u + 4]);
    }
  }

  /** The tunnel packets that are looked up. */
  predicate IsUserPacket(frame: Frame) {
    HasGtpuPort(frame) && GtpuLen(frame, GtpuAt(frame)).Some? && frame[GtpuAt(frame) + 1] == 0xFF
  }

  /** Everything else has one of the two outcomes above; user packets are where the parse chain says. */
  lemma UserPacketsOnly(frame: Frame, env: Env, flows: Flows)
    ensures !IsUserPacket(frame) ==>
              || Process(frame, env, flows) == Outcome(Pass, frame, None, flows)
              || Process(frame, env, flows) == Outcome(Drop, frame, Some(Report(2, |frame|, 0, 0, 0, 0)), flows)
    ensures IsUserPacket(frame) ==>
              && Parse(frame) == Gtpu(frame[14] % 16, GtpuAt(frame), GtpuLen(frame, GtpuAt(frame)).value)
              && Process(frame, env, flows).action != Pass
  {
    hide GtpuLen, ProcessTunnelled, BE16;
    ParsedPorts(frame);
    if IsUserPacket(frame) {
      hide ProcessTunnelled;
      NeverPassed(frame, GtpuAt(frame), GtpuLen(frame, GtpuAt(frame)).value, env, flows);
    }
  }

  lemma NeverPassed(frame: Frame, at: nat, hdrLen: nat, env: Env, flows: Flows)
    requires at + 8 <= |frame|
    ensures ProcessTunnelled(frame, at, hdrLen, env, flows).action != Pass
  {
    hide ExtractQfi, Police, PdrLookup.LookupSafe, Decapsulated;
  }

  /** The TEID is the four octets from the fifth on, least significant first. */
  lemma RawTeidIs(frame: Frame, at: nat)
    requires at + 8 <= |frame|
    ensures RawTeid(frame, at)
            == frame[at + 4] as int + 0x100 * frame[at + 5] as int + 0x1_0000 * frame[at + 6] as int
               + 0x100_0000 * frame[at + 7] as int
  {
  }

  /** The policer's answer for a packet that names a flow: an unknown flow is not policed. */
  function PolicerVerdict(frame: Frame, at: nat, env: Env, flows: Flows): int
    requires at + 8 <= |frame|
  {
    var key := QosFlows.FlowKey(RawTeid(frame, at), ExtractQfi(frame, at));
    if key.qfi == 0 || key !in flows then 0 else QosFlows.Verdict(flows[key], key.qfi, |frame|, env.now)
  }

  /** The flows after it: the named one has seen the packet, the others have not. */
  function PolicedFlows(frame: Frame, at: nat, env: Env, flows: Flows): Flows
    requires at + 8 <= |frame|
  {
    var key := QosFlows.FlowKey(RawTeid(frame, at), ExtractQfi(frame, at));
    if key.qfi == 0 || key !in flows then flows
    else flows[key := QosFlows.AfterPacket(flows[key], key.qfi, |frame|, env.now)]
  }

  /**
   What becomes of a user packet, case by case: without a verified entry it is a miss; with one that says
   drop (1) it is dropped unpoliced; with a verdict 2 or 3 it is dropped under that verdict; with
   less than an Ethernet header behind 42 octets and the GTP-U header, or when the packet cannot
   be moved, it is dropped after policing; otherwise it leaves with the entry's MAC in front, to a
   redirect target if the entry says redirect (2) and names an interface, and back out if not.
   */
  predicate UserOutcome(o: Outcome, frame: Frame, at: nat, hdrLen: nat, env: Env, flows: Flows)
    requires at + 8 <= |frame|
  {
    var strip, l := 42 + hdrLen, PdrLookup.LookupSafe(env.entry);
    var verdict, after := PolicerVerdict(frame, at, env, flows), PolicedFlows(frame, at, env, flows);
    if l.found.None? then
      o == Outcome(Drop, frame, Some(Report(1, |frame|, l.tornReads, 0, l.retries, 0)), flows)
    else if l.found.value.action == 1 then
      o == Outcome(Drop, frame, Some(Report(2, |frame|, l.tornReads, 0, l.retries, 0)), flows)
    else if verdict != 0 || strip + 14 > |frame| || env.headFault then
      o == Outcome(Drop, frame, Some(Report(2, |frame|, l.tornReads, 0, l.retries, verdict)), after)
    else
      && o.action == (if l.found.value.action != 2 || l.found.value.ifindex == 0 then Tx
                      else if env.hasTarget then Redirect else Aborted)
      && o.packet == l.found.value.dstMac + frame[strip + 6..]
      && o.report == Some(Report(0, |frame|, l.tornReads, 0, l.retries, 0)) && o.flows == after
  }

  lemma TunnelledOutcome(frame: Frame, at: nat, hdrLen: nat, env: Env, flows: Flows)
    requires at + 8 <= |frame|
    ensures UserOutcome(ProcessTunnelled(frame, at, hdrLen, env, flows), frame, at, hdrLen, env, flows)
  {
    hide ExtractQfi, RawTeid, PdrLookup.LookupSafe, QosFlows.Verdict, QosFlows.AfterPacket;
    var key := QosFlows.FlowKey(RawTeid(frame, at), ExtractQfi(frame, at));
    assert key in flows ==> Police(flows, key, |frame|, env.now).0 == QosFlows.Verdict(flows[key], key.qfi, |frame|, env.now);
  }

  lemma ProcessIs(frame: Frame, env: Env, flows: Flows)
    ensures var p := Parse(frame);
      p.Gtpu? && frame[p.at + 1] == 0xFF ==> Process(frame, env, flows) == ProcessTunnelled(frame, p.at, p.hdrLen, env, flows)
  {
    hide Parse, ProcessTunnelled;
  }

  lemma UserPacketOutcome(frame: Frame, env: Env, flows: Flows)
    requires IsUserPacket(frame)
    ensures UserOutcome(Process(frame, env, flows), frame, GtpuAt(frame), GtpuLen(frame, GtpuAt(frame)).value, env, flows)
  {
    var at := GtpuAt(frame);
    assert at + 8 <= |frame| && frame[at + 1] == 0xFF;
    hide *;
    UserPacketsOnly(frame, env, flows);
    ProcessIs(frame, env, flows);
    TunnelledOutcome(frame, at, GtpuLen(frame, at).value, env, flows);
  }

  // ---------- What is forwarded ----------

  predicate Forwarded(o: Outcome) {
    o.report.Some? && o.report.value.packetType == 0
  }

  /**
   A forwarded packet is the inner frame, readdressed, exactly when the outer IP header has no
   options; otherwise it still begins with the last 4 * (IHL - 5) octets of the outer headers.
   */
  lemma DecapsulationExactIff(frame: Frame, env: Env, flows: Flows)
    requires Forwarded(Process(frame, env, flows))
    ensures var p := Parse(frame); var out := Process(frame, env, flows).packet;
      var pdr := PdrLookup.LookupSafe(env.entry).found;
      && p.Gtpu? && p.at + p.hdrLen <= |frame| && pdr.Some?
      && |out| == |frame| - (p.at + p.hdrLen) + 4 * (p.ihl - 5)
      && out[..6] == pdr.value.dstMac
      && (p.ihl == 5 <==> |frame| >= p.at + p.hdrLen + 6 && out == pdr.value.dstMac + frame[p.at + p.hdrLen + 6..])
  {
    hide PdrLookup.LookupSafe, GtpuLen;
  }

  /** A forwarded tunnel packet was looked up successfully and not told to be dropped. */
  lemma ForwardedWasFound(frame: Frame, env: Env, flows: Flows)
    requires Forwarded(Process(frame, env, flows))
    ensures var l := PdrLookup.LookupSafe(env.entry);
      && l.found.Some? && PdrChecksum.Verifies(l.found.value) && l.found.value.action != PDR_ACTION_DROP
  {
    hide GtpuLen, PdrChecksum.Verifies;
  }

  /** The TEID and QFI a tunnelled packet names, as the data plane reads them. */
  function NamedFlow(frame: Frame): (key: Option<QosFlows.FlowKey>)
    ensures key.Some? <==> Parse(frame).Gtpu?
  {
    match Parse(frame)
    case Gtpu(_, at, _) => Some(QosFlows.FlowKey(RawTeid(frame, at), ExtractQfi(frame, at)))
    case _ => None
  }

  /** The flow a packet is policed under: the one it names, if it carries user data and a QFI and may pass its PDR. */
  function PolicedFlow(frame: Frame, env: Env): (key: Option<QosFlows.FlowKey>)
    ensures key.Some? ==> key == NamedFlow(frame) && key.value.qfi != 0
  {
    var named, found := NamedFlow(frame), PdrLookup.LookupSafe(env.entry).found;
    if named.Some? && frame[Parse(frame).at + 1] == MSG_TYPE_GPDU && named.value.qfi != 0
       && found.Some? && found.value.action != PDR_ACTION_DROP
    then named else None
  }

  /** The program polices a packet under that flow and no other, and forwards it only if the verdict allows. */
  lemma ProcessPolices(frame: Frame, env: Env, flows: Flows)
    ensures var o, key := Process(frame, env, flows), PolicedFlow(frame, env);
      && o.flows == (if key.None? then flows else Police(flows, key.value, |frame|, env.now).1)
      && (Forwarded(o) ==>
            && NamedFlow(frame).Some?
            && (if key.None? then NamedFlow(frame).value.qfi == 0
                else Police(flows, key.value, |frame|, env.now).0 == QosFlows.QOS_OK))
  {
    hide Parse, ExtractQfi, RawTeid, Police, PdrLookup.LookupSafe, Decapsulated;
  }

  /** A user packet is booked as a miss exactly when none of the rounds of its lookup was clean. */
  lemma MissIffNoCleanRound(frame: Frame, env: Env, flows: Flows)
    requires Parse(frame).Gtpu? && frame[Parse(frame).at + 1] == MSG_TYPE_GPDU
    ensures var o := Process(frame, env, flows);
      && o.report.Some?
      && (o.report.value.packetType == 1 <==>
          !(env.entry.Some? && exists i :: 0 <= i < PdrLookup.PDR_RETRY_MAX && PdrLookup.Clean(env.entry.value[i])))
      && (o.report.value.packetType == 1 ==>
            o.action == Drop && o.flows == flows && o.report.value.retries == (if env.entry.None? then 0 else 3))
  {
    hide Parse, ExtractQfi, Police, PdrLookup.LookupSafe, PdrLookup.Clean, Decapsulated;
  }

  // ---------- Counter laws over runs ----------

  /** What one report can say. */
  predicate Plausible(r: Report, bytes: nat) {
    && 0 <= r.packetType <= 2 && r.bytes == bytes && r.lockContention == 0
    && (r.qosResult == 0 || r.qosResult == 2 || r.qosResult == 3)
    && (r.qosResult != 0 ==> r.packetType == 2)
    && r.tornReads <= r.retries + Count(r.packetType == 1)
    && r.retries <= 3
  }

  lemma TunnelledReport(frame: Frame, at: nat, hdrLen: nat, env: Env, flows: Flows)
    requires at + 8 <= |frame|
    ensures var o := ProcessTunnelled(frame, at, hdrLen, env, flows);
      o.action != Pass && o.report.Some? && Plausible(o.report.value, |frame|)
  {
    hide ExtractQfi, Police, PdrLookup.LookupSafe, Decapsulated;
  }

  /** Every packet that is not passed up the stack is counted once, plausibly. */
  lemma ReportShape(frame: Frame, env: Env, flows: Flows)
    ensures var o := Process(frame, env, flows);
      && (o.action == Pass <==> o.report.None?)
      && (o.report.Some? ==> Plausible(o.report.value, |frame|))
  {
    hide Parse, ProcessTunnelled;
    if Parse(frame).Gtpu? {
      TunnelledReport(frame, Parse(frame).at, Parse(frame).hdrLen, env, flows);
    }
  }

  predicate CounterLaws(c: Counters) {
    && c.txPackets + c.dropPackets == c.rxPackets + c.qosDroppedGbr + c.qosDroppedMbr
    && c.gtpuPackets == c.teidHit + c.teidMiss
    && c.teidHit == c.txPackets
    && c.txBytes <= c.rxBytes
    && c.tornReadDetected <= c.pdrUpdateRetries + c.teidMiss
    && c.pdrUpdateRetries <= 3 * c.rxPackets
    && c.spinLockContention == 0
    && c.qosShapedPackets == 0 && c.qosVonrProtected == 0
  }

  /** A packet and the flow map it meets: control-plane changes between packets are arbitrary. */
  datatype Arrival = Arrival(frame: Frame, env: Env, flows: Flows)

  /** One packet on a machine whose counters never wrap. */
  function IdealStep(c: Counters, a: Arrival): Counters {
    var report := Process(a.frame, a.env, a.flows).report;
    if report.None? then c else Added(c, report.value)
  }

  function IdealRun(c: Counters, arrivals: seq<Arrival>): Counters
    decreases |arrivals|
  {
    if arrivals == [] then c else IdealRun(IdealStep(c, arrivals[0]), arrivals[1..])
  }

  /** One packet on the real machine, as DataPlane.UpfXdpIngress performs it. */
  function MachineStep(c: Counters, a: Arrival): Counters {
    var report := Process(a.frame, a.env, a.flows).report;
    if report.None? then c else Wrapped(Added(c, report.value))
  }

  function MachineRun(c: Counters, arrivals: seq<Arrival>): Counters
    decreases |arrivals|
  {
    if arrivals == [] then c else MachineRun(MachineStep(c, arrivals[0]), arrivals[1..])
  }

  lemma {:induction false} LawsKept(c: Counters, arrivals: seq<Arrival>)
    requires CounterLaws(c)
    ensures CounterLaws(IdealRun(c, arrivals))
    decreases |arrivals|
  {
    hide Process;
    if arrivals == [] {
    } else {
      ReportShape(arrivals[0].frame, arrivals[0].env, arrivals[0].flows);
      LawsKept(IdealStep(c, arrivals[0]), arrivals[1..]);
    }
  }

  lemma {:induction false} MachineWrapsIdeal(c: Counters, arrivals: seq<Arrival>)
    ensures MachineRun(Wrapped(c), arrivals) == Wrapped(IdealRun(c, arrivals))
    decreases |arrivals|
  {
    hide Process, Wrapped, Added;
    if arrivals == [] {
    } else {
      var report := Process(arrivals[0].frame, arrivals[0].env, arrivals[0].flows).report;
      if report.Some? {
        WrapAdded(c, report.value);
      }
      MachineWrapsIdeal(IdealStep(c, arrivals[0]), arrivals[1..]);
    }
  }

  lemma ZeroObeysLaws()
    ensures CounterLaws(ZERO) && Wrapped(ZERO) == ZERO
  {
    hide Wrapped;
    WrappedWhenNoneWraps(ZERO);
  }

  /**
   Over every run from zeroed counters, whatever the packets, the clock, the interference with the
   lookups and the flow map each packet meets: the machine's counters are ideal counters that obey
   the laws, reduced mod 2^64; if none has wrapped, the machine's own counters obey them.
   */
  lemma CounterLawsOverRuns(arrivals: seq<Arrival>)
    ensures var ideal, machine := IdealRun(ZERO, arrivals), MachineRun(ZERO, arrivals);
      && CounterLaws(ideal) && machine == Wrapped(ideal)
      && (NoneWraps(ideal) ==> CounterLaws(machine))
  {
    hide *;
    ZeroObeysLaws();
    LawsKept(ZERO, arrivals);
    MachineWrapsIdeal(ZERO, arrivals);
    var ideal := IdealRun(ZERO, arrivals);
    if NoneWraps(ideal) {
      WrappedWhenNoneWraps(ideal);
    }
  }
}
