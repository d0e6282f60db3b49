/**
 Sessions and detection rules over the kernel's PDR map, which the two managers share.
 */
module PdrSystem {
  import opened Machine
  import opened PdrChecksum

  const MAX_TEID_ENTRIES: nat := 10000
  const PDR_ACTION_FORWARD: U8 := 0

  datatype Session = Session(seid: U64, teidUl: U32, teidDl: U32, gnbMac: Bytes, qfi: U8)

  datatype Rule = Rule(pdrId: U16, teid: U32, qfi: U8, action: U8, dstMac: Bytes, outIfIndex: U32)

  type Kernel = map<U32, Snapshot>

  /**
   The two managers' tables and the map under both. adds counts, for each installed TEID, the
   writes since it was last removed; stale holds the sessions whose latest QFI change the
   kernel refused.
   */
  datatype Sys = Sys(
    sessions: map<U64, Session>, rules: map<U16, Rule>, kernel: Kernel, adds: map<U32, nat>, stale: set<U64>)

  const EMPTY: Sys := Sys(map[], map[], map[], map[], {})

  /** The first six octets of a hardware address, padded with zeros. */
  function MacOf(mac: Bytes): Mac {
    if |mac| >= 6 then mac[..6] else mac + seq(6 - |mac|, _ => 0)
  }

  // ---------- bpf.Manager ----------

  predicate PutOk(m: Kernel, teid: U32, fault: bool) {
    !fault && (teid in m || |m| < MAX_TEID_ENTRIES)
  }

  /** A failed read counts as no entry, and the versions start again. */
  function NextVersion(m: Kernel, teid: U32, readFault: bool): U32 {
    if !readFault && teid in m && m[teid].magic == PDR_MAGIC then Wrap32(m[teid].version + 1) else 1
  }

  function NextAdds(m: Kernel, adds: map<U32, nat>, teid: U32, readFault: bool): map<U32, nat> {
    adds[teid := (if !readFault && teid in m && teid in adds then adds[teid] else 0) + 1]
  }

  function NewEntry(version: U32, mac: Bytes, ifIndex: U32, qfi: U8, action: U8): Snapshot {
    var value := Snapshot(PDR_MAGIC, version, MacOf(mac), ifIndex, qfi, action, 0, 0);
    value.(checksum := GoChecksum(value))
  }

  /** Whether a write's read and its write fail for reasons of the kernel's own. */
  datatype Fault = Fault(read: bool, write: bool)

  /** The parts of bpf.Manager that keep the PDR map. */
  class Manager {
    var teidPdrMap: Kernel
    ghost var adds: map<U32, nat>

    constructor ()
      ensures teidPdrMap == map[] && adds == map[]
    {
      teidPdrMap, adds := map[], map[];
    }

    method GetPDR(teid: U32, fault: bool) returns (r: Option<Snapshot>)
      ensures r == if !fault && teid in teidPdrMap then Some(teidPdrMap[teid]) else None
    {
      if fault || teid !in teidPdrMap {
        return None;
      }
      return Some(teidPdrMap[teid]);
    }

    method AddPDR(teid: U32, dstMac: Bytes, ifIndex: U32, qfi: U8, action: U8, fault: Fault) returns (ok: bool)
      modifies this
      ensures ok == PutOk(old(teidPdrMap), teid, fault.write)
      ensures var version := NextVersion(old(teidPdrMap), teid, fault.read);
        teidPdrMap == if ok then old(teidPdrMap)[teid := NewEntry(version, dstMac, ifIndex, qfi, action)]
                      else old(teidPdrMap)
      ensures adds == if ok then NextAdds(old(teidPdrMap), old(adds), teid, fault.read) else old(adds)
    {
      hide GoChecksum;
      var macArr := MacOf(dstMac);
      var existingVersion: U32 := 0;
      var existing := GetPDR(teid, fault.read);
      if existing.Some? && existing.value.magic == PDR_MAGIC {
        existingVersion := existing.value.version;
      }
      var value := Snapshot(PDR_MAGIC, Wrap32(existingVersion + 1), macArr, ifIndex, qfi, action, 0, 0);
      var checksum := CalcPdrChecksum(value);
      value := value.(checksum := checksum);
      if fault.write || (teid !in teidPdrMap && |teidPdrMap| >= MAX_TEID_ENTRIES) {
        return false;
      }
      adds := NextAdds(teidPdrMap, adds, teid, fault.read);
      teidPdrMap := teidPdrMap[teid := value];
      return true;
    }

    method RemovePDR(teid: U32, fault: bool) returns (ok: bool)
      modifies this
      ensures ok == (!fault && teid in old(teidPdrMap))
      ensures teidPdrMap == if ok then old(teidPdrMap) - {teid} else old(teidPdrMap)
      ensures adds == if ok then old(adds) - {teid} else old(adds)
    {
      if fault || teid !in teidPdrMap {
        return false;
      }
      teidPdrMap, adds := teidPdrMap - {teid}, adds - {teid};
      return true;
    }
  }

  // ---------- Steps ----------

  datatype Event =
    | CreateSession(session: Session, fault: Fault)
    | RemoveSession(seid: U64, writeFault: bool)
    | UpdateSessionQfi(seid: U64, qfi: U8, fault: Fault)
    | AddRule(rule: Rule, fault: Fault)
    | RemoveRule(pdrId: U16, writeFault: bool)

  function Written(s: Sys, teid: U32, mac: Bytes, ifIndex: U32, qfi: U8, action: U8, fault: Fault): Sys {
    s.(kernel := s.kernel[teid := NewEntry(NextVersion(s.kernel, teid, fault.read), mac, ifIndex, qfi, action)],
       adds := NextAdds(s.kernel, s.adds, teid, fault.read))
  }

  function Erased(s: Sys, teid: U32): Sys {
    s.(kernel := s.kernel - {teid}, adds := s.adds - {teid})
  }

  function CreateStep(s: Sys, x: Session, fault: Fault): Sys {
    if x.seid in s.sessions || !PutOk(s.kernel, x.teidUl, fault.write) then s
    else Written(s, x.teidUl, x.gnbMac, 0, x.qfi, PDR_ACTION_FORWARD, fault).(sessions := s.sessions[x.seid := x])
  }

  function RemoveSessionStep(s: Sys, seid: U64, fault: bool): Sys {
    if seid !in s.sessions || fault || s.sessions[seid].teidUl !in s.kernel then s
    else Erased(s, s.sessions[seid].teidUl).(sessions := s.sessions - {seid}, stale := s.stale - {seid})
  }

  /** The session changes first; then its entry is written anew. */
  function UpdateStep(s: Sys, seid: U64, qfi: U8, fault: Fault): Sys {
    if seid !in s.sessions then s else
    var x := s.sessions[seid].(qfi := qfi);
    var s1 := s.(sessions := s.sessions[seid := x]);
    if !PutOk(s.kernel, x.teidUl, fault.write) then s1.(stale := s.stale + {seid})
    else Written(s1, x.teidUl, x.gnbMac, 0, qfi, PDR_ACTION_FORWARD, fault).(stale := s.stale - {seid})
  }

  function AddRuleStep(s: Sys, r: Rule, fault: Fault): Sys {
    if r.pdrId in s.rules || !PutOk(s.kernel, r.teid, fault.write) then s
    else Written(s, r.teid, r.dstMac, r.outIfIndex, r.qfi, r.action, fault).(rules := s.rules[r.pdrId := r])
  }

  function RemoveRuleStep(s: Sys, pdrId: U16, fault: bool): Sys {
    if pdrId !in s.rules || fault || s.rules[pdrId].teid !in s.kernel then s
    else Erased(s, s.rules[pdrId].teid).(rules := s.rules - {pdrId})
  }

  function Step(s: Sys, e: Event): Sys {
    match e
    case CreateSession(x, fault) => CreateStep(s, x, fault)
    case RemoveSession(seid, fault) => RemoveSessionStep(s, seid, fault)
    case UpdateSessionQfi(seid, qfi, fault) => UpdateStep(s, seid, qfi, fault)
    case AddRule(r, fault) => AddRuleStep(s, r, fault)
    case RemoveRule(pdrId, fault) => RemoveRuleStep(s, pdrId, fault)
  }

  function Run(s: Sys, es: seq<Event>): Sys
    decreases |es|
  {
    if es == [] then s else Run(Step(s, es[0]), es[1..])
  }

  // ---------- What each operation achieves ----------

  /** A hardware address is cut to six octets, or filled up with zeros behind. */
  lemma MacOfIs(mac: Bytes, i: nat)
    requires i < 6
    ensures MacOf(mac)[i] == if i < |mac| then mac[i] else 0
  {
  }

  /** The entry for an owner: its fields where they belong, no filter, and the control plane's checksum. */
  predicate Holds(e: Snapshot, mac: Bytes, ifIndex: U32, qfi: U8, action: U8) {
    && e.magic == 0x5044_5255 && e.ifindex == ifIndex && e.qfi == qfi && e.action == action && e.sdfFilter == 0
    && (forall i :: 0 <= i < 6 ==> e.dstMac[i] == if i < |mac| then mac[i] else 0)
    && e.checksum == GoChecksum(e)
  }

  /** The kernel's map with one entry written, every other as it was. */
  predicate OnlyWrites(m: Kernel, m': Kernel, teid: U32, mac: Bytes, ifIndex: U32, qfi: U8, action: U8) {
    && m'.Keys == m.Keys + {teid}
    && (forall t :: t in m && t != teid ==> m'[t] == m[t])
    && Holds(m'[teid], mac, ifIndex, qfi, action)
  }

  lemma WrittenIs(s: Sys, teid: U32, mac: Bytes, ifIndex: U32, qfi: U8, action: U8, fault: Fault)
    ensures OnlyWrites(s.kernel, Written(s, teid, mac, ifIndex, qfi, action, fault).kernel, teid, mac, ifIndex, qfi, action)
  {
    hide NewEntry, NextVersion, NextAdds, Holds;
    NewEntryIs(NextVersion(s.kernel, teid, fault.read), mac, ifIndex, qfi, action);
  }

  lemma NewEntryIs(version: U32, mac: Bytes, ifIndex: U32, qfi: U8, action: U8)
    ensures Holds(NewEntry(version, mac, ifIndex, qfi, action), mac, ifIndex, qfi, action)
    ensures NewEntry(version, mac, ifIndex, qfi, action).version == version
  {
    var blank := Snapshot(PDR_MAGIC, version, MacOf(mac), ifIndex, qfi, action, 0, 0);
    var e := NewEntry(version, mac, ifIndex, qfi, action);
    assert e == blank.(checksum := GoChecksum(blank));
    SameGoSum(blank, e);
    hide GoChecksum;
    forall i | 0 <= i < 6
      ensures e.dstMac[i] == if i < |mac| then mac[i] else 0
    {
      MacOfIs(mac, i);
    }
  }

  lemma SameGoSum(s: Snapshot, t: Snapshot)
    requires t == s.(checksum := t.checksum)
    ensures GoChecksum(s) == GoChecksum(t)
  {
  }

  /** A new session is stored, and its uplink TEID forwards to its gNB; unless it exists or the write fails. */
  lemma CreateIs(s: Sys, x: Session, fault: Fault)
    ensures var s' := CreateStep(s, x, fault);
      if x.seid in s.sessions || fault.write || (x.teidUl !in s.kernel && |s.kernel| >= 10000) then s' == s
      else
        && s'.sessions == s.sessions[x.seid := x] && s'.rules == s.rules
        && OnlyWrites(s.kernel, s'.kernel, x.teidUl, x.gnbMac, 0, x.qfi, 0)
  {
    hide OnlyWrites, NewEntry, NextVersion, NextAdds;
    WrittenIs(s, x.teidUl, x.gnbMac, 0, x.qfi, 0, fault);
  }

  /** A removed session is gone, and so is its entry; nothing else goes. */
  lemma RemoveSessionIs(s: Sys, seid: U64, fault: bool)
    ensures var s' := RemoveSessionStep(s, seid, fault);
      if seid !in s.sessions || fault || s.sessions[seid].teidUl !in s.kernel then s' == s
      else
        && seid !in s'.sessions && s.sessions[seid].teidUl !in s'.kernel && s'.rules == s.rules
        && (forall a :: a in s.sessions && a != seid ==> a in s'.sessions && s'.sessions[a] == s.sessions[a])
        && (forall t :: t in s.kernel && t != s.sessions[seid].teidUl ==> t in s'.kernel && s'.kernel[t] == s.kernel[t])
  {
  }

  /** An update gives the session the new QFI, and its entry too unless the write fails. */
  lemma UpdateIs(s: Sys, seid: U64, qfi: U8, fault: Fault)
    requires seid in s.sessions
    ensures var s' := UpdateStep(s, seid, qfi, fault); var x := s.sessions[seid];
      && s'.sessions == s.sessions[seid := x.(qfi := qfi)] && s'.rules == s.rules
      && (if fault.write || (x.teidUl !in s.kernel && |s.kernel| >= 10000) then s'.kernel == s.kernel
          else OnlyWrites(s.kernel, s'.kernel, x.teidUl, x.gnbMac, 0, qfi, 0))
  {
    hide OnlyWrites, NewEntry, NextVersion, NextAdds;
    var x := s.sessions[seid].(qfi := qfi);
    WrittenIs(s.(sessions := s.sessions[seid := x]), x.teidUl, x.gnbMac, 0, qfi, 0, fault);
  }

  /** Nothing happens for a session that does not exist. */
  lemma UpdateUnknown(s: Sys, seid: U64, qfi: U8, fault: Fault)
    requires seid !in s.sessions
    ensures UpdateStep(s, seid, qfi, fault) == s
  {
  }

  /** A new rule is stored, and its TEID has the rule's interface, QFI, action and address. */
  lemma AddRuleIs(s: Sys, r: Rule, fault: Fault)
    ensures var s' := AddRuleStep(s, r, fault);
      if r.pdrId in s.rules || fault.write || (r.teid !in s.kernel && |s.kernel| >= 10000) then s' == s
      else
        && s'.rules == s.rules[r.pdrId := r] && s'.sessions == s.sessions
        && OnlyWrites(s.kernel, s'.kernel, r.teid, r.dstMac, r.outIfIndex, r.qfi, r.action)
  {
    hide OnlyWrites, NewEntry, NextVersion, NextAdds;
    WrittenIs(s, r.teid, r.dstMac, r.outIfIndex, r.qfi, r.action, fault);
  }

  lemma RemoveRuleIs(s: Sys, pdrId: U16, fault: bool)
    ensures var s' := RemoveRuleStep(s, pdrId, fault);
      if pdrId !in s.rules || fault || s.rules[pdrId].teid !in s.kernel then s' == s
      else
        && pdrId !in s'.rules && s.rules[pdrId].teid !in s'.kernel && s'.sessions == s.sessions
        && (forall a :: a in s.rules && a != pdrId ==> a in s'.rules && s'.rules[a] == s.rules[a])
        && (forall t :: t in s.kernel && t != s.rules[pdrId].teid ==> t in s'.kernel && s'.kernel[t] == s.kernel[t])
  {
  }

  // ---------- The managers ----------

  datatype Status = Done | AlreadyExists | NotFound | KernelFailed

  // Each manager sees its own table and the shared map; the ghost parameter s is the whole of which
  // these are parts, so that every method is one Step of it.

  class SessionManager {
    var sessions: map<U64, Session>
    const bpf: Manager
    ghost var stale: set<U64>

    constructor (bpf: Manager)
      ensures this.bpf == bpf && sessions == map[] && stale == {}
    {
      sessions, stale := map[], {};
      this.bpf := bpf;
    }

    method CreateSession(session: Session, fault: Fault, ghost s: Sys) returns (status: Status)
      requires s.sessions == sessions && s.kernel == bpf.teidPdrMap && s.adds == bpf.adds && s.stale == stale
      modifies this, bpf
      ensures var s' := Step(s, Event.CreateSession(session, fault));
        && s'.sessions == sessions && s'.kernel == bpf.teidPdrMap && s'.adds == bpf.adds
        && s'.stale == stale && s'.rules == s.rules
      ensures status == AlreadyExists <==> session.seid in old(sessions)
      ensures status == Done <==>
                session.seid !in old(sessions) && PutOk(old(bpf.teidPdrMap), session.teidUl, fault.write)
    {
      hide NewEntry, NextVersion;
      if session.seid in sessions {
        return AlreadyExists;
      }
      var ok := bpf.AddPDR(session.teidUl, session.gnbMac, 0, session.qfi, PDR_ACTION_FORWARD, fault);
      if !ok {
        return KernelFailed;
      }
      sessions := sessions[session.seid := session];
      return Done;
    }

    method RemoveSession(seid: U64, fault: bool, ghost s: Sys) returns (status: Status)
      requires s.sessions == sessions && s.kernel == bpf.teidPdrMap && s.adds == bpf.adds && s.stale == stale
      modifies this, bpf
      ensures var s' := Step(s, Event.RemoveSession(seid, fault));
        && s'.sessions == sessions && s'.kernel == bpf.teidPdrMap && s'.adds == bpf.adds
        && s'.stale == stale && s'.rules == s.rules
      ensures status == Done <==> seid in old(sessions) && seid !in sessions
      ensures status == NotFound <==> seid !in old(sessions)
    {
      if seid !in sessions {
        return NotFound;
      }
      var ok := bpf.RemovePDR(sessions[seid].teidUl, fault);
      if !ok {
        return KernelFailed;
      }
      sessions := sessions - {seid};
      stale := stale - {seid};
      return Done;
    }

    /** The session changes first, and keeps the new QFI even when the kernel refuses it. */
    method UpdateSessionQfi(seid: U64, qfi: U8, fault: Fault, ghost s: Sys) returns (status: Status)
      requires s.sessions == sessions && s.kernel == bpf.teidPdrMap && s.adds == bpf.adds && s.stale == stale
      modifies this, bpf
      ensures var s' := Step(s, Event.UpdateSessionQfi(seid, qfi, fault));
        && s'.sessions == sessions && s'.kernel == bpf.teidPdrMap && s'.adds == bpf.adds
        && s'.stale == stale && s'.rules == s.rules
      ensures status == NotFound <==> seid !in old(sessions)
      ensures status == Done <==>
                seid in old(sessions) && PutOk(old(bpf.teidPdrMap), old(sessions)[seid].teidUl, fault.write)
    {
      hide NewEntry, NextVersion;
      if seid !in sessions {
        return NotFound;
      }
      var session := sessions[seid].(qfi := qfi);
      sessions := sessions[seid := session];
      var ok := bpf.AddPDR(session.teidUl, session.gnbMac, 0, qfi, PDR_ACTION_FORWARD, fault);
      if !ok {
        stale := stale + {seid};
        return KernelFailed;
      }
      stale := stale - {seid};
      return Done;
    }
  }

  class PDRManager {
    var pdrs: map<U16, Rule>
    const bpf: Manager

    constructor (bpf: Manager)
      ensures this.bpf == bpf && pdrs == map[]
    {
      pdrs := map[];
      this.bpf := bpf;
    }

    method AddPDR(pdr: Rule, fault: Fault, ghost s: Sys) returns (status: Status)
      requires s.rules == pdrs && s.kernel == bpf.teidPdrMap && s.adds == bpf.adds
      modifies this, bpf
      ensures var s' := Step(s, AddRule(pdr, fault));
        && s'.rules == pdrs && s'.kernel == bpf.teidPdrMap && s'.adds == bpf.adds
        && s'.sessions == s.sessions && s'.stale == s.stale
      ensures status == AlreadyExists <==> pdr.pdrId in old(pdrs)
      ensures status == Done <==> pdr.pdrId !in old(pdrs) && PutOk(old(bpf.teidPdrMap), pdr.teid, fault.write)
    {
      hide NewEntry, NextVersion;
      if pdr.pdrId in pdrs {
        return AlreadyExists;
      }
      var ok := bpf.AddPDR(pdr.teid, pdr.dstMac, pdr.outIfIndex, pdr.qfi, pdr.action, fault);
      if !ok {
        return KernelFailed;
      }
      pdrs := pdrs[pdr.pdrId := pdr];
      return Done;
    }

    method RemovePDR(pdrId: U16, fault: bool, ghost s: Sys) returns (status: Status)
      requires s.rules == pdrs && s.kernel == bpf.teidPdrMap && s.adds == bpf.adds
      modifies this, bpf
      ensures var s' := Step(s, RemoveRule(pdrId, fault));
        && s'.rules == pdrs && s'.kernel == bpf.teidPdrMap && s'.adds == bpf.adds
        && s'.sessions == s.sessions && s'.stale == s.stale
      ensures status == Done <==> pdrId in old(pdrs) && pdrId !in pdrs
      ensures status == NotFound <==> pdrId !in old(pdrs)
    {
      if pdrId !in pdrs {
        return NotFound;
      }
      var ok := bpf.RemovePDR(pdrs[pdrId].teid, fault);
      if !ok {
        return KernelFailed;
      }
      pdrs := pdrs - {pdrId};
      return Done;
    }
  }

  // ---------- Agreement ----------

  /** What the kernel holds for an owner: its fields, the control plane's checksum, the count of writes. */
  predicate EntryFor(s: Sys, teid: U32, mac: Bytes, ifIndex: U32, action: U8) {
    && teid in s.kernel && teid in s.adds
    && var e := s.kernel[teid];
       && e == NewEntry(e.version, mac, ifIndex, e.qfi, action)
       && e.version == Wrap32(s.adds[teid])
  }

  predicate SessionServed(s: Sys, x: Session) {
    EntryFor(s, x.teidUl, x.gnbMac, 0, PDR_ACTION_FORWARD)
    && (x.seid in s.stale || s.kernel[x.teidUl].qfi == x.qfi)
  }

  predicate RuleServed(s: Sys, r: Rule) {
    EntryFor(s, r.teid, r.dstMac, r.outIfIndex, r.action) && s.kernel[r.teid].qfi == r.qfi
  }

  ghost predicate SessionOwns(s: Sys, teid: U32) {
    exists seid :: seid in s.sessions && s.sessions[seid].teidUl == teid
  }

  ghost predicate RuleOwns(s: Sys, teid: U32) {
    exists id :: id in s.rules && s.rules[id].teid == teid
  }

  ghost predicate AllOwned(s: Sys) {
    forall teid :: teid in s.kernel ==> SessionOwns(s, teid) || RuleOwns(s, teid)
  }

  /** No two live owners share a TEID. */
  ghost predicate Unshared(s: Sys) {
    && (forall a, b :: a in s.sessions && b in s.sessions && a != b ==> s.sessions[a].teidUl != s.sessions[b].teidUl)
    && (forall a, b :: a in s.rules && b in s.rules && a != b ==> s.rules[a].teid != s.rules[b].teid)
    && (forall a, b :: a in s.sessions && b in s.rules ==> s.sessions[a].teidUl != s.rules[b].teid)
  }

  ghost predicate AllServed(s: Sys) {
    && (forall seid :: seid in s.sessions ==> s.sessions[seid].seid == seid && SessionServed(s, s.sessions[seid]))
    && (forall id :: id in s.rules ==> s.rules[id].pdrId == id && RuleServed(s, s.rules[id]))
  }

  /** The kernel's entries are exactly those of the live owners, each with its owner's fields. */
  ghost predicate Agree(s: Sys) {
    && s.adds.Keys == s.kernel.Keys
    && s.stale <= s.sessions.Keys
    && AllServed(s)
    && AllOwned(s)
    && |s.kernel| <= MAX_TEID_ENTRIES
  }

  /** An owner that is about to be added takes a TEID not in use; the only demand on the callers. */
  predicate FreshTeid(s: Sys, e: Event) {
    match e
    case CreateSession(x, fault) => x.seid !in s.sessions && !fault.write ==> x.teidUl !in s.kernel
    case AddRule(r, fault) => r.pdrId !in s.rules && !fault.write ==> r.teid !in s.kernel
    case _ => true
  }

  predicate FreshTeids(s: Sys, es: seq<Event>)
    decreases |es|
  {
    es != [] ==> FreshTeid(s, es[0]) && FreshTeids(Step(s, es[0]), es[1..])
  }

  lemma WrittenFits(s: Sys, teid: U32, mac: Bytes, ifIndex: U32, qfi: U8, action: U8, fault: Fault)
    requires teid in s.kernel <==> teid in s.adds
    requires teid in s.kernel ==> s.kernel[teid].version == Wrap32(s.adds[teid])
    requires teid in s.kernel ==> s.kernel[teid].magic == PDR_MAGIC
    ensures var s' := Written(s, teid, mac, ifIndex, qfi, action, fault);
      EntryFor(s', teid, mac, ifIndex, action) && s'.kernel[teid].qfi == qfi
  {
    hide GoChecksum, MacOf;
    if teid in s.kernel {
      WrapAdd32(s.adds[teid], 1);
    }
  }

  /** Two maps differ at most in one TEID. */
  ghost predicate SameBut<V(!new)>(m: map<U32, V>, m': map<U32, V>, teid: U32) {
    && (forall t :: t != teid ==> (t in m' <==> t in m))
    && (forall t :: t in m && t in m' && t != teid ==> m'[t] == m[t])
  }

  ghost predicate SameElsewhere(s: Sys, s': Sys, teid: U32) {
    SameBut(s.kernel, s'.kernel, teid) && SameBut(s.adds, s'.adds, teid)
  }

  lemma PutSameBut<V(!new)>(m: map<U32, V>, teid: U32, v: V)
    ensures SameBut(m, m[teid := v], teid)
    ensures m[teid := v].Keys == m.Keys + {teid}
    ensures |m[teid := v]| == if teid in m then |m| else |m| + 1
  {
  }

  lemma EraseSameBut<V(!new)>(m: map<U32, V>, teid: U32)
    ensures SameBut(m, m - {teid}, teid)
    ensures (m - {teid}).Keys == m.Keys - {teid} && |m - {teid}| <= |m|
  {
    assert (m - {teid}).Keys == m.Keys - {teid};
    assert |m.Keys - {teid}| <= |m.Keys|;
  }

  /** A change to one TEID's entry leaves the other owners served. */
  lemma OthersServed(s: Sys, s': Sys, teid: U32)
    requires SameElsewhere(s, s', teid)
    ensures forall x :: SessionServed(s, x) && x.teidUl != teid && (x.seid in s.stale ==> x.seid in s'.stale)
                        ==> SessionServed(s', x)
    ensures forall r :: RuleServed(s, r) && r.teid != teid ==> RuleServed(s', r)
  {
    hide NewEntry;
  }

  /** Removing the owner of a TEID leaves every remaining owner served. */
  lemma RemainingServed(s: Sys, s': Sys, teid: U32)
    requires AllServed(s) && SameElsewhere(s, s', teid)
    requires forall a :: a in s'.sessions ==>
               a in s.sessions && s'.sessions[a] == s.sessions[a] && s.sessions[a].teidUl != teid
               && (a in s.stale ==> a in s'.stale)
    requires forall a :: a in s'.rules ==> a in s.rules && s'.rules[a] == s.rules[a] && s.rules[a].teid != teid
    ensures AllServed(s')
  {
    hide SessionServed, RuleServed, SameElsewhere;
    OthersServed(s, s', teid);
  }

  lemma ServedInstalled(s: Sys)
    ensures forall x :: SessionServed(s, x) ==> x.teidUl in s.kernel
    ensures forall r :: RuleServed(s, r) ==> r.teid in s.kernel
  {
  }

  /** What a write changes: one entry and its count. */
  lemma WrittenFrame(s: Sys, s': Sys, teid: U32, mac: Bytes, ifIndex: U32, qfi: U8, action: U8, fault: Fault)
    requires var w := Written(s, teid, mac, ifIndex, qfi, action, fault); s'.kernel == w.kernel && s'.adds == w.adds
    requires s.adds.Keys == s.kernel.Keys && PutOk(s.kernel, teid, fault.write) && |s.kernel| <= MAX_TEID_ENTRIES
    ensures SameElsewhere(s, s', teid) && teid in s'.kernel
    ensures s'.adds.Keys == s'.kernel.Keys && |s'.kernel| <= MAX_TEID_ENTRIES
  {
    hide NewEntry, NextVersion, SameBut;
    PutSameBut(s.kernel, teid, s'.kernel[teid]);
    PutSameBut(s.adds, teid, s'.adds[teid]);
  }

  lemma ErasedFrame(s: Sys, s': Sys, teid: U32)
    requires s'.kernel == s.kernel - {teid} && s'.adds == s.adds - {teid}
    requires s.adds.Keys == s.kernel.Keys && |s.kernel| <= MAX_TEID_ENTRIES
    ensures SameElsewhere(s, s', teid) && teid !in s'.kernel
    ensures s'.adds.Keys == s'.kernel.Keys && |s'.kernel| <= MAX_TEID_ENTRIES
  {
    hide SameBut;
    EraseSameBut(s.kernel, teid);
    EraseSameBut(s.adds, teid);
  }

  /** Every entry still has its owner when only the owner of one TEID changes, and that TEID is looked after. */
  lemma OwnedAfter(s: Sys, s': Sys, teid: U32)
    requires AllOwned(s) && SameElsewhere(s, s', teid)
    requires teid in s'.kernel ==> SessionOwns(s', teid) || RuleOwns(s', teid)
    requires forall id :: id in s.sessions && s.sessions[id].teidUl != teid ==>
               id in s'.sessions && s'.sessions[id].teidUl == s.sessions[id].teidUl
    requires forall id :: id in s.rules && s.rules[id].teid != teid ==> id in s'.rules && s'.rules[id] == s.rules[id]
    ensures AllOwned(s')
  {
    forall t | t in s'.kernel && t != teid
      ensures SessionOwns(s', t) || RuleOwns(s', t)
    {
      assert t in s.kernel;
      if SessionOwns(s, t) {
        var id :| id in s.sessions && s.sessions[id].teidUl == t;
        assert id in s'.sessions && s'.sessions[id].teidUl == t;
      } else {
        var id :| id in s.rules && s.rules[id].teid == t;
        assert id in s'.rules && s'.rules[id].teid == t;
      }
    }
  }

  lemma ServedNow(s: Sys, w: Sys, x: Session)
    requires s.kernel == w.kernel && s.adds == w.adds
    requires EntryFor(w, x.teidUl, x.gnbMac, 0, PDR_ACTION_FORWARD) && w.kernel[x.teidUl].qfi == x.qfi
    ensures SessionServed(s, x)
  {
  }

  lemma RuleServedNow(s: Sys, w: Sys, r: Rule)
    requires s.kernel == w.kernel && s.adds == w.adds
    requires EntryFor(w, r.teid, r.dstMac, r.outIfIndex, r.action) && w.kernel[r.teid].qfi == r.qfi
    ensures RuleServed(s, r)
  {
  }

  lemma CreateKeeps(s: Sys, x: Session, fault: Fault)
    requires Agree(s) && Unshared(s) && FreshTeid(s, Event.CreateSession(x, fault))
    ensures var s' := CreateStep(s, x, fault); Agree(s') && Unshared(s')
  {
    hide NewEntry, SessionServed, RuleServed, EntryFor, Written, SameElsewhere, AllOwned;
    var s' := CreateStep(s, x, fault);
    if s' != s {
      var w := Written(s, x.teidUl, x.gnbMac, 0, x.qfi, PDR_ACTION_FORWARD, fault);
      WrittenOwners(s, x.teidUl, x.gnbMac, 0, x.qfi, PDR_ACTION_FORWARD, fault);
      WrittenFits(s, x.teidUl, x.gnbMac, 0, x.qfi, PDR_ACTION_FORWARD, fault);
      WrittenFrame(s, s', x.teidUl, x.gnbMac, 0, x.qfi, PDR_ACTION_FORWARD, fault);
      ServedNow(s', w, x);
      OthersServed(s, s', x.teidUl);
      ServedInstalled(s);
      assert x.seid in s'.sessions && s'.sessions[x.seid].teidUl == x.teidUl;
      OwnedAfter(s, s', x.teidUl);
    }
  }

  lemma WrittenOwners(s: Sys, teid: U32, mac: Bytes, ifIndex: U32, qfi: U8, action: U8, fault: Fault)
    ensures var w := Written(s, teid, mac, ifIndex, qfi, action, fault);
      w.sessions == s.sessions && w.rules == s.rules && w.stale == s.stale
  {
  }

  lemma AddRuleKeeps(s: Sys, r: Rule, fault: Fault)
    requires Agree(s) && Unshared(s) && FreshTeid(s, AddRule(r, fault))
    ensures var s' := AddRuleStep(s, r, fault); Agree(s') && Unshared(s')
  {
    hide NewEntry, SessionServed, RuleServed, EntryFor, Written, SameElsewhere, AllOwned;
    var s' := AddRuleStep(s, r, fault);
    if s' != s {
      var w := Written(s, r.teid, r.dstMac, r.outIfIndex, r.qfi, r.action, fault);
      WrittenOwners(s, r.teid, r.dstMac, r.outIfIndex, r.qfi, r.action, fault);
      WrittenFits(s, r.teid, r.dstMac, r.outIfIndex, r.qfi, r.action, fault);
      WrittenFrame(s, s', r.teid, r.dstMac, r.outIfIndex, r.qfi, r.action, fault);
      RuleServedNow(s', w, r);
      OthersServed(s, s', r.teid);
      ServedInstalled(s);
      assert r.pdrId in s'.rules && s'.rules[r.pdrId].teid == r.teid;
      OwnedAfter(s, s', r.teid);
    }
  }

  lemma ServedEntry(s: Sys, x: Session)
    requires SessionServed(s, x)
    ensures x.teidUl in s.kernel && x.teidUl in s.adds
    ensures s.kernel[x.teidUl].magic == PDR_MAGIC && s.kernel[x.teidUl].version == Wrap32(s.adds[x.teidUl])
  {
  }

  lemma StaleServed(s: Sys, s': Sys, x: Session, qfi: U8)
    requires SessionServed(s, x) && s'.kernel == s.kernel && s'.adds == s.adds && x.seid in s'.stale
    ensures SessionServed(s', x.(qfi := qfi)) && SameElsewhere(s, s', x.teidUl)
  {
    hide NewEntry;
  }

  lemma UpdateKeeps(s: Sys, seid: U64, qfi: U8, fault: Fault)
    requires Agree(s) && Unshared(s)
    ensures var s' := UpdateStep(s, seid, qfi, fault); Agree(s') && Unshared(s')
  {
    hide NewEntry, SessionServed, RuleServed, EntryFor, Written, SameElsewhere, AllOwned;
    var s' := UpdateStep(s, seid, qfi, fault);
    if seid in s.sessions {
      var x := s.sessions[seid].(qfi := qfi);
      var s1 := s.(sessions := s.sessions[seid := x]);
      ServedEntry(s, s.sessions[seid]);
      if PutOk(s.kernel, x.teidUl, fault.write) {
        var w := Written(s1, x.teidUl, x.gnbMac, 0, qfi, PDR_ACTION_FORWARD, fault);
        WrittenOwners(s1, x.teidUl, x.gnbMac, 0, qfi, PDR_ACTION_FORWARD, fault);
        WrittenFits(s1, x.teidUl, x.gnbMac, 0, qfi, PDR_ACTION_FORWARD, fault);
        WrittenFrame(s1, s', x.teidUl, x.gnbMac, 0, qfi, PDR_ACTION_FORWARD, fault);
        SameElsewhereFrom(s, s1, s', x.teidUl);
        ServedNow(s', w, x);
      } else {
        StaleServed(s, s', s.sessions[seid], qfi);
      }
      OthersServed(s, s', x.teidUl);
      assert seid in s'.sessions && s'.sessions[seid].teidUl == x.teidUl;
      OwnedAfter(s, s', x.teidUl);
    }
  }

  lemma SameElsewhereFrom(s: Sys, s1: Sys, s': Sys, teid: U32)
    requires s1.kernel == s.kernel && s1.adds == s.adds && SameElsewhere(s1, s', teid)
    ensures SameElsewhere(s, s', teid)
  {
  }

  /** Under Unshared the owner of a TEID is its only one. */
  lemma OthersElsewhere(s: Sys, seid: U64)
    requires Unshared(s) && seid in s.sessions
    ensures forall a :: a in s.sessions && a != seid ==> s.sessions[a].teidUl != s.sessions[seid].teidUl
    ensures forall a :: a in s.rules ==> s.rules[a].teid != s.sessions[seid].teidUl
  {
  }

  lemma OthersElsewhereRule(s: Sys, id: U16)
    requires Unshared(s) && id in s.rules
    ensures forall a :: a in s.sessions ==> s.sessions[a].teidUl != s.rules[id].teid
    ensures forall a :: a in s.rules && a != id ==> s.rules[a].teid != s.rules[id].teid
  {
  }

  lemma FewerOwnersUnshared(s: Sys, s': Sys)
    requires Unshared(s)
    requires forall a :: a in s'.sessions ==> a in s.sessions && s'.sessions[a] == s.sessions[a]
    requires forall a :: a in s'.rules ==> a in s.rules && s'.rules[a] == s.rules[a]
    ensures Unshared(s')
  {
  }

  lemma RemoveSessionKeeps(s: Sys, seid: U64, fault: bool)
    requires Agree(s) && Unshared(s)
    ensures var s' := RemoveSessionStep(s, seid, fault); Agree(s') && Unshared(s')
  {
    hide AllServed, SameElsewhere, AllOwned, Unshared, SessionOwns, RuleOwns;
    var s' := RemoveSessionStep(s, seid, fault);
    if s' != s {
      OthersElsewhere(s, seid);
      ErasedFrame(s, s', s.sessions[seid].teidUl);
      RemainingServed(s, s', s.sessions[seid].teidUl);
      OwnedAfter(s, s', s.sessions[seid].teidUl);
      FewerOwnersUnshared(s, s');
    }
  }

  lemma RemoveRuleKeeps(s: Sys, pdrId: U16, fault: bool)
    requires Agree(s) && Unshared(s)
    ensures var s' := RemoveRuleStep(s, pdrId, fault); Agree(s') && Unshared(s')
  {
    hide AllServed, SameElsewhere, AllOwned, Unshared, SessionOwns, RuleOwns;
    var s' := RemoveRuleStep(s, pdrId, fault);
    if s' != s {
      OthersElsewhereRule(s, pdrId);
      ErasedFrame(s, s', s.rules[pdrId].teid);
      RemainingServed(s, s', s.rules[pdrId].teid);
      OwnedAfter(s, s', s.rules[pdrId].teid);
      FewerOwnersUnshared(s, s');
    }
  }

  lemma StepKeeps(s: Sys, e: Event)
    requires Agree(s) && Unshared(s) && FreshTeid(s, e)
    ensures Agree(Step(s, e)) && Unshared(Step(s, e))
  {
    hide Agree, Unshared, CreateStep, RemoveSessionStep, UpdateStep, AddRuleStep, RemoveRuleStep;
    match e {
      case CreateSession(x, fault) => CreateKeeps(s, x, fault);
      case RemoveSession(seid, fault) => RemoveSessionKeeps(s, seid, fault);
      case UpdateSessionQfi(seid, qfi, fault) => UpdateKeeps(s, seid, qfi, fault);
      case AddRule(r, fault) => AddRuleKeeps(s, r, fault);
      case RemoveRule(id, fault) => RemoveRuleKeeps(s, id, fault);
    }
  }

  /** Over every run in which no two live owners share a TEID, with map accesses failing at will. */
  lemma {:induction false} RunKeepsAgreement(s: Sys, es: seq<Event>)
    requires Agree(s) && Unshared(s) && FreshTeids(s, es)
    ensures Agree(Run(s, es)) && Unshared(Run(s, es))
    decreases |es|
  {
    hide Agree, Unshared, FreshTeid, Step;
    if es == [] {
    } else {
      StepKeeps(s, es[0]);
      RunKeepsAgreement(Step(s, es[0]), es[1..]);
    }
  }

  lemma EmptyAgrees()
    ensures Agree(EMPTY) && Unshared(EMPTY)
  {
  }

  // ---------- Versions count writes ----------

  /** The event's read of the current entry fails. */
  predicate ReadFails(e: Event) {
    match e
    case CreateSession(_, fault) => fault.read
    case UpdateSessionQfi(_, _, fault) => fault.read
    case AddRule(_, fault) => fault.read
    case _ => false
  }

  /** The TEID an event writes an entry for, if it gets that far. */
  function WrittenTeid(s: Sys, e: Event): Option<U32> {
    match e
    case CreateSession(x, fault) =>
      if x.seid !in s.sessions && PutOk(s.kernel, x.teidUl, fault.write) then Some(x.teidUl) else None
    case UpdateSessionQfi(seid, _, fault) =>
      if seid in s.sessions && PutOk(s.kernel, s.sessions[seid].teidUl, fault.write)
      then Some(s.sessions[seid].teidUl) else None
    case AddRule(r, fault) =>
      if r.pdrId !in s.rules && PutOk(s.kernel, r.teid, fault.write) then Some(r.teid) else None
    case _ => None
  }

  /** One more write, the first after the entry was absent or could not be read, or none. */
  function WritesAfter(s: Sys, e: Event, teid: U32, n: nat): nat {
    if teid !in Step(s, e).kernel then 0
    else if WrittenTeid(s, e) != Some(teid) then n
    else if ReadFails(e) then 1 else n + 1
  }

  /** Writes of the TEID's entry since it was last absent or last unreadable, n of them before the run. */
  function WritesSince(s: Sys, es: seq<Event>, teid: U32, n: nat): nat
    decreases |es|
  {
    if es == [] then n else WritesSince(Step(s, es[0]), es[1..], teid, WritesAfter(s, es[0], teid, n))
  }

  function Count(s: Sys, teid: U32): nat {
    if teid in s.adds then s.adds[teid] else 0
  }

  lemma StepCounts(s: Sys, e: Event, teid: U32)
    requires s.adds.Keys == s.kernel.Keys
    ensures Count(Step(s, e), teid) == WritesAfter(s, e, teid, Count(s, teid))
  {
    hide NewEntry, NextVersion;
  }

  lemma {:induction false} AddsCountWrites(s: Sys, es: seq<Event>, teid: U32)
    requires Agree(s) && Unshared(s) && FreshTeids(s, es)
    ensures Count(Run(s, es), teid) == WritesSince(s, es, teid, Count(s, teid))
    decreases |es|
  {
    AgreeKeys(s);
    hide Agree, Unshared, FreshTeid, Step, Count, WritesAfter;
    if es == [] {
    } else {
      StepKeeps(s, es[0]);
      StepCounts(s, es[0], teid);
      AddsCountWrites(Step(s, es[0]), es[1..], teid);
    }
  }

  lemma AgreeKeys(s: Sys)
    requires Agree(s)
    ensures s.adds.Keys == s.kernel.Keys
  {
  }

  /**
   From empty tables, every installed entry's version is the number of times it has been written
   since its TEID was last removed, or since its entry could last not be read, mod 2^32.
   */
  lemma VersionsCountWrites(es: seq<Event>, teid: U32)
    requires FreshTeids(EMPTY, es) && teid in Run(EMPTY, es).kernel
    ensures Run(EMPTY, es).kernel[teid].version == Wrap32(WritesSince(EMPTY, es, teid, 0))
  {
    hide FreshTeids, Run, WritesSince, Agree, Unshared;
    EmptyAgrees();
    RunKeepsAgreement(EMPTY, es);
    AddsCountWrites(EMPTY, es, teid);
    VersionOf(Run(EMPTY, es), teid);
  }

  lemma VersionOf(s: Sys, teid: U32)
    requires Agree(s) && teid in s.kernel
    ensures s.kernel[teid].version == Wrap32(Count(s, teid))
  {
    hide NewEntry;
    if SessionOwns(s, teid) {
      var id :| id in s.sessions && s.sessions[id].teidUl == teid;
      assert SessionServed(s, s.sessions[id]);
    } else {
      assert RuleOwns(s, teid);
      var id :| id in s.rules && s.rules[id].teid == teid;
      assert RuleServed(s, s.rules[id]);
    }
  }

  // ---------- Fresh TEIDs are exactly what is needed ----------

  /** Whatever operation that keeps to fresh TEIDs comes next, the tables agree after it. */
  ghost predicate StaysAgreed(s: Sys) {
    forall e :: FreshTeid(s, e) ==> Agree(Step(s, e))
  }

  lemma FreshStaysAgreed(s: Sys, e: Event)
    requires Agree(s) && Unshared(s) && FreshTeid(s, e)
    ensures StaysAgreed(Step(s, e))
  {
    hide Agree, Unshared, Step, FreshTeid;
    StepKeeps(s, e);
    var s1 := Step(s, e);
    forall e' | FreshTeid(s1, e')
      ensures Agree(Step(s1, e'))
    {
      StepKeeps(s1, e');
    }
  }

  /** The removal of the TEID's owner. */
  function Removal(owner: Owner): Event {
    match owner
    case SessionOwner(seid) => Event.RemoveSession(seid, false)
    case RuleOwner(pdrId) => RemoveRule(pdrId, false)
  }

  datatype Owner = SessionOwner(seid: U64) | RuleOwner(pdrId: U16)

  predicate Owns(s: Sys, owner: Owner, teid: U32) {
    match owner
    case SessionOwner(seid) => seid in s.sessions && s.sessions[seid].teidUl == teid
    case RuleOwner(pdrId) => pdrId in s.rules && s.rules[pdrId].teid == teid
  }

  lemma OwnerOf(s: Sys, teid: U32) returns (owner: Owner)
    requires AllOwned(s) && teid in s.kernel
    ensures Owns(s, owner, teid)
  {
    if SessionOwns(s, teid) {
      var seid :| seid in s.sessions && s.sessions[seid].teidUl == teid;
      return SessionOwner(seid);
    } else {
      assert RuleOwns(s, teid);
      var id :| id in s.rules && s.rules[id].teid == teid;
      return RuleOwner(id);
    }
  }

  /** After a new owner has taken a live owner's TEID, removing the live owner erases the new one's entry. */
  lemma SharingErases(s: Sys, e: Event, owner: Owner, teid: U32)
    requires teid in s.kernel && Owns(s, owner, teid) && !FreshTeid(s, e) && WrittenTeid(s, e) == Some(teid)
    ensures var s2 := Step(Step(s, e), Removal(owner));
      && teid !in s2.kernel
      && (e.CreateSession? ==> e.session.seid in s2.sessions && s2.sessions[e.session.seid].teidUl == teid)
      && (e.AddRule? ==> e.rule.pdrId in s2.rules && s2.rules[e.rule.pdrId].teid == teid)
  {
    hide NewEntry, NextVersion, NextAdds;
    var s1 := Step(s, e);
    assert teid in s1.kernel;
    assert Owns(s1, owner, teid);
  }

  lemma NotServedNotAgreed(s: Sys, owner: Owner, teid: U32)
    requires Owns(s, owner, teid) && teid !in s.kernel
    ensures !Agree(s)
  {
    hide AllOwned;
    match owner {
      case SessionOwner(seid) => assert !SessionServed(s, s.sessions[seid]);
      case RuleOwner(id) => assert !RuleServed(s, s.rules[id]);
    }
  }

  lemma SharedBreaks(s: Sys, e: Event)
    requires Agree(s) && !FreshTeid(s, e)
    ensures !StaysAgreed(Step(s, e))
  {
    hide Agree, Step, FreshTeid;
    var teid := TakenTeid(s, e);
    AgreeOwned(s);
    var owner := OwnerOf(s, teid);
    SharingErases(s, e, owner, teid);
    RemovalIsFresh(Step(s, e), owner);
    var s2 := Step(Step(s, e), Removal(owner));
    NotServedNotAgreed(s2, if e.CreateSession? then SessionOwner(e.session.seid) else RuleOwner(e.rule.pdrId), teid);
  }

  lemma TakenTeid(s: Sys, e: Event) returns (teid: U32)
    requires !FreshTeid(s, e)
    ensures teid in s.kernel && WrittenTeid(s, e) == Some(teid) && (e.CreateSession? || e.AddRule?)
  {
    teid := if e.CreateSession? then e.session.teidUl else e.rule.teid;
  }

  lemma AgreeOwned(s: Sys)
    requires Agree(s)
    ensures AllOwned(s)
  {
  }

  lemma RemovalIsFresh(s: Sys, owner: Owner)
    ensures FreshTeid(s, Removal(owner))
  {
  }

  /**
   The exact condition, which a caller can check beforehand: an operation leaves tables that stay in
   agreement under every next operation if and only if it does not add an owner on a TEID in use.
   */
  lemma FreshTeidIff(s: Sys, e: Event)
    requires Agree(s) && Unshared(s)
    ensures FreshTeid(s, e) <==> StaysAgreed(Step(s, e))
  {
    hide *;
    if FreshTeid(s, e) {
      FreshStaysAgreed(s, e);
    } else {
      SharedBreaks(s, e);
    }
  }

  /**
   What becomes of a session that took the TEID of a live one: removing that one leaves it without an
   entry, its own removal then fails, and only a change of its QFI brings the entry back, after
   which it can be removed.
   */
  lemma SharedTeidOrphans(s: Sys, a: U64, x: Session, fault: Fault, qfi: U8, again: Fault)
    requires Agree(s) && a in s.sessions && x.seid !in s.sessions && x.teidUl == s.sessions[a].teidUl
    requires !fault.write && !again.write
    ensures
      var orphaned := Step(Step(s, Event.CreateSession(x, fault)), Event.RemoveSession(a, false));
      var restored := Step(orphaned, Event.UpdateSessionQfi(x.seid, qfi, again));
      && x.seid in orphaned.sessions && x.teidUl !in orphaned.kernel
      && Step(orphaned, Event.RemoveSession(x.seid, false)) == orphaned
      && x.teidUl in restored.kernel
      && x.seid !in Step(restored, Event.RemoveSession(x.seid, false)).sessions
  {
    hide Agree, Step;
    Orphaned(s, a, x, fault);
    Restored(Step(Step(s, Event.CreateSession(x, fault)), Event.RemoveSession(a, false)), x.seid, qfi, again);
  }

  lemma Orphaned(s: Sys, a: U64, x: Session, fault: Fault)
    requires Agree(s) && a in s.sessions && x.seid !in s.sessions && x.teidUl == s.sessions[a].teidUl && !fault.write
    ensures
      var o := Step(Step(s, Event.CreateSession(x, fault)), Event.RemoveSession(a, false));
      && x.seid in o.sessions && o.sessions[x.seid] == x
      && x.teidUl !in o.kernel && |o.kernel| < MAX_TEID_ENTRIES
  {
    ServedEntry(s, s.sessions[a]);
    hide NewEntry, NextVersion, NextAdds, AllServed, AllOwned, SessionServed, EntryFor;
    var teid := x.teidUl;
    var s1 := CreateStep(s, x, fault);
    PutSameBut(s.kernel, teid, s1.kernel[teid]);
    ErasedOne(s1.kernel, teid);
  }

  /** An orphaned session cannot be removed until a change of its QFI has written its entry again. */
  lemma Restored(o: Sys, seid: U64, qfi: U8, again: Fault)
    requires seid in o.sessions && o.sessions[seid].teidUl !in o.kernel
    requires |o.kernel| < MAX_TEID_ENTRIES && !again.write
    ensures var restored := Step(o, Event.UpdateSessionQfi(seid, qfi, again));
      && Step(o, Event.RemoveSession(seid, false)) == o
      && o.sessions[seid].teidUl in restored.kernel
      && seid !in Step(restored, Event.RemoveSession(seid, false)).sessions
  {
    hide NewEntry, NextVersion, NextAdds;
  }

  lemma ErasedOne(m: Kernel, teid: U32)
    requires teid in m
    ensures |m - {teid}| < |m|
  {
    assert (m - {teid}).Keys == m.Keys - {teid};
    assert |m.Keys - {teid}| < |m.Keys|;
  }
}
