/**
 The grouped elements of a session modification: each parser keeps, field by field, the last
 sufficiently long element of the field's type.
 */
module PfcpGroups {
  import opened Machine
  import opened Pfcp

  const IE_CREATE_PDR: U16 := 1
  const IE_PDI: U16 := 2
  const IE_CREATE_FAR: U16 := 3
  const IE_CREATE_QER: U16 := 4
  const IE_QFI: U16 := 5
  const IE_SOURCE_INTERFACE: U16 := 20
  const IE_FTEID: U16 := 21
  const IE_NETWORK_INSTANCE: U16 := 22
  const IE_GBR: U16 := 24
  const IE_MBR: U16 := 25
  const IE_APPLY_ACTION: U16 := 44
  const IE_PDR_ID: U16 := 56
  const IE_FAR_ID: U16 := 108
  const IE_QER_ID: U16 := 109

  datatype Pdi = Pdi(iface: U8, teid: U32, qfi: U8, networkInstance: Bytes)

  datatype PdrInfo = PdrInfo(pdrId: U16, precedence: U32, pdi: Pdi)

  datatype FarInfo = FarInfo(farId: U32, action: U8, dstInterface: U8)

  datatype QerInfo = QerInfo(qerId: U32, qfi: U8, gbrUl: U64, gbrDl: U64, mbrUl: U64, mbrDl: U64)

  datatype SessionMod = SessionMod(seid: U64, pdrs: seq<PdrInfo>, fars: seq<FarInfo>, qers: seq<QerInfo>)

  /** The value of a group; its length fits the 16-bit length of the element around it. */
  type GroupBytes = b: Bytes | |b| <= 0xFFFF

  predicate Matches(ie: IE, t: U16, min: nat) {
    ie.ieType == t && |ie.value| >= min
  }

  /** The value of the last element of type t with at least min octets. */
  function LastOf(ies: seq<IE>, t: U16, min: nat): (r: Option<Bytes>)
    ensures r.Some? ==> |r.value| >= min
  {
    if ies == [] then None
    else
      var last := ies[|ies| - 1];
      if Matches(last, t, min) then Some(last.value) else LastOf(ies[..|ies| - 1], t, min)
  }

  /** The last match, in terms of positions. */
  lemma {:induction false} LastOfIs(ies: seq<IE>, i: nat, t: U16, min: nat)
    requires i < |ies| && Matches(ies[i], t, min)
    requires forall j :: i < j < |ies| ==> !Matches(ies[j], t, min)
    ensures LastOf(ies, t, min) == Some(ies[i].value)
    decreases |ies|
  {
    if i < |ies| - 1 {
      LastOfIs(ies[..|ies| - 1], i, t, min);
    }
  }

  /** There is a last match unless nothing matches. */
  lemma {:induction false} LastOfNoneIff(ies: seq<IE>, t: U16, min: nat)
    ensures LastOf(ies, t, min).None? <==> forall i :: 0 <= i < |ies| ==> !Matches(ies[i], t, min)
    decreases |ies|
  {
    if ies != [] {
      var front := ies[..|ies| - 1];
      LastOfNoneIff(front, t, min);
      assert forall i :: 0 <= i < |front| ==> front[i] == ies[i];
    }
  }

  lemma LastOfMore(ies: seq<IE>, ie: IE, t: U16, min: nat)
    ensures LastOf(ies + [ie], t, min) == if Matches(ie, t, min) then Some(ie.value) else LastOf(ies, t, min)
  {
    assert (ies + [ie])[..|ies|] == ies;
  }

  // ---------- What each group means ----------

  function PdiOf(ies: seq<IE>): Pdi {
    Pdi(match LastOf(ies, IE_SOURCE_INTERFACE, 1) case None => 0 case Some(v) => v[0] % 16,
        match LastOf(ies, IE_FTEID, 7) case None => 0 case Some(v) => BE32(v[3..7]),
        match LastOf(ies, IE_QFI, 1) case None => 0 case Some(v) => v[0] % 64,
        match LastOf(ies, IE_NETWORK_INSTANCE, 0) case None => [] case Some(v) => v)
  }

  const ZERO_PDI: Pdi := Pdi(0, 0, 0, [])
  const ZERO_PDR: PdrInfo := PdrInfo(0, 0, ZERO_PDI)
  const ZERO_FAR: FarInfo := FarInfo(0, 0, 0)
  const ZERO_QER: QerInfo := QerInfo(0, 0, 0, 0, 0, 0)

  function PdrOf(ies: seq<IE>): PdrInfo {
    PdrInfo(match LastOf(ies, IE_PDR_ID, 2) case None => 0 case Some(v) => BE16(v[..2]),
            0,
            match LastOf(ies, IE_PDI, 0) case None => ZERO_PDI case Some(v) => PdiOf(Elements(v)))
  }

  function FarOf(ies: seq<IE>): FarInfo {
    FarInfo(match LastOf(ies, IE_FAR_ID, 4) case None => 0 case Some(v) => BE32(v[..4]),
            match LastOf(ies, IE_APPLY_ACTION, 1) case None => 0 case Some(v) => v[0],
            0)
  }

  function QerOf(ies: seq<IE>): QerInfo {
    var gbr, mbr := LastOf(ies, IE_GBR, 16), LastOf(ies, IE_MBR, 16);
    QerInfo(match LastOf(ies, IE_QER_ID, 4) case None => 0 case Some(v) => BE32(v[..4]),
            match LastOf(ies, IE_QFI, 1) case None => 0 case Some(v) => v[0] % 64,
            match gbr case None => 0 case Some(v) => BE64(v[..8]),
            match gbr case None => 0 case Some(v) => BE64(v[8..16]),
            match mbr case None => 0 case Some(v) => BE64(v[..8]),
            match mbr case None => 0 case Some(v) => BE64(v[8..16]))
  }

  /** Element i is the last of its type that is long enough. */
  predicate IsLast(ies: seq<IE>, i: nat, t: U16, min: nat) {
    && i < |ies| && ies[i].ieType == t && |ies[i].value| >= min
    && forall j :: i < j < |ies| ==> ies[j].ieType != t || |ies[j].value| < min
  }

  lemma IsLastIs(ies: seq<IE>, i: nat, t: U16, min: nat)
    requires IsLast(ies, i, t, min)
    ensures LastOf(ies, t, min) == Some(ies[i].value) && |ies[i].value| >= min
  {
    assert forall j :: i < j < |ies| ==> !Matches(ies[j], t, min);
    LastOfIs(ies, i, t, min);
  }

  /** Which octets of which element a detection group's fields come from. */
  lemma PdiFieldsAre(ies: seq<IE>, i: nat)
    ensures IsLast(ies, i, 20, 1) ==> PdiOf(ies).iface == ies[i].value[0] % 16
    ensures IsLast(ies, i, 21, 7) ==> PdiOf(ies).teid == BE32(ies[i].value[3..7])
    ensures IsLast(ies, i, 5, 1) ==> PdiOf(ies).qfi == ies[i].value[0] % 64
    ensures IsLast(ies, i, 22, 0) ==> PdiOf(ies).networkInstance == ies[i].value
  {
    hide LastOf, IsLast, BE32;
    if IsLast(ies, i, 20, 1) { IsLastIs(ies, i, 20, 1); }
    if IsLast(ies, i, 21, 7) { IsLastIs(ies, i, 21, 7); }
    if IsLast(ies, i, 5, 1) { IsLastIs(ies, i, 5, 1); }
    if IsLast(ies, i, 22, 0) { IsLastIs(ies, i, 22, 0); }
  }

  /** The same for a detection rule; the precedence is never read. */
  lemma PdrFieldsAre(ies: seq<IE>, i: nat)
    ensures IsLast(ies, i, 56, 2) ==> PdrOf(ies).pdrId == BE16(ies[i].value[..2])
    ensures IsLast(ies, i, 2, 0) ==> PdrOf(ies).pdi == PdiOf(Elements(ies[i].value))
    ensures PdrOf(ies).precedence == 0
  {
    hide LastOf, IsLast, BE16, PdiOf, Elements;
    if IsLast(ies, i, 56, 2) { IsLastIs(ies, i, 56, 2); }
    if IsLast(ies, i, 2, 0) { IsLastIs(ies, i, 2, 0); }
  }

  /** And for a forwarding rule, whose destination interface is never read. */
  lemma FarFieldsAre(ies: seq<IE>, i: nat)
    ensures IsLast(ies, i, 108, 4) ==> FarOf(ies).farId == BE32(ies[i].value[..4])
    ensures IsLast(ies, i, 44, 1) ==> FarOf(ies).action == ies[i].value[0]
    ensures FarOf(ies).dstInterface == 0
  {
    hide LastOf, IsLast, BE32;
    if IsLast(ies, i, 108, 4) { IsLastIs(ies, i, 108, 4); }
    if IsLast(ies, i, 44, 1) { IsLastIs(ies, i, 44, 1); }
  }

  /** And for an enforcement rule: uplink first, downlink second. */
  lemma QerFieldsAre(ies: seq<IE>, i: nat)
    ensures IsLast(ies, i, 109, 4) ==> QerOf(ies).qerId == BE32(ies[i].value[..4])
    ensures IsLast(ies, i, 5, 1) ==> QerOf(ies).qfi == ies[i].value[0] % 64
    ensures IsLast(ies, i, 24, 16) ==>
              QerOf(ies).gbrUl == BE64(ies[i].value[..8]) && QerOf(ies).gbrDl == BE64(ies[i].value[8..16])
    ensures IsLast(ies, i, 25, 16) ==>
              QerOf(ies).mbrUl == BE64(ies[i].value[..8]) && QerOf(ies).mbrDl == BE64(ies[i].value[8..16])
  {
    hide LastOf, IsLast, BE32, BE64;
    if IsLast(ies, i, 109, 4) { IsLastIs(ies, i, 109, 4); }
    if IsLast(ies, i, 5, 1) { IsLastIs(ies, i, 5, 1); }
    if IsLast(ies, i, 24, 16) { IsLastIs(ies, i, 24, 16); }
    if IsLast(ies, i, 25, 16) { IsLastIs(ies, i, 25, 16); }
  }

  // ---------- The parsers ----------

  /** What one turn of each parser's loop does to the element list: the 16-bit end cannot wrap here. */
  lemma Turn(data: GroupBytes, done: seq<IE>, remaining: Bytes)
    requires |remaining| <= 0xFFFF && !NoElement(remaining) && Elements(data) == done + Elements(remaining)
    ensures Wrap16(4 + BE16(remaining[2..4])) == 4 + BE16(remaining[2..4])
    ensures Elements(data) == (done + [First(remaining)]) + Elements(Rest(remaining))
  {
    ElementsStep(remaining, done);
  }

  method ParsePdi(data: GroupBytes) returns (pdi: Pdi)
    ensures pdi == PdiOf(Elements(data))
  {
    hide BE32, Elements;
    pdi := ZERO_PDI;
    var remaining := data;
    ghost var done: seq<IE> := [];
    while |remaining| >= 4
      invariant |remaining| <= |data| && Elements(data) == done + Elements(remaining)
      invariant pdi == PdiOf(done)
      decreases |remaining|
    {
      var ieType := BE16(remaining[..2]);
      var ieLen := BE16(remaining[2..4]);
      if |remaining| < ieLen as int + 4 {
        break;
      }
      Turn(data, done, remaining);
      var ieValue := remaining[4..Wrap16(4 + ieLen as int)];
      ghost var ie := First(remaining);
      LastOfMore(done, ie, IE_SOURCE_INTERFACE, 1);
      LastOfMore(done, ie, IE_FTEID, 7);
      LastOfMore(done, ie, IE_QFI, 1);
      LastOfMore(done, ie, IE_NETWORK_INSTANCE, 0);
      if ieType == IE_SOURCE_INTERFACE {
        if |ieValue| >= 1 {
          pdi := pdi.(iface := ieValue[0] % 16);
        }
      } else if ieType == IE_FTEID {
        if |ieValue| >= 7 {
          pdi := pdi.(teid := BE32(ieValue[3..7]));
        }
      } else if ieType == IE_QFI {
        if |ieValue| >= 1 {
          pdi := pdi.(qfi := ieValue[0] % 64);
        }
      } else if ieType == IE_NETWORK_INSTANCE {
        pdi := pdi.(networkInstance := ieValue);
      }
      done := done + [ie];
      remaining := remaining[Wrap16(4 + ieLen as int)..];
    }
    EndOfScan(data, done, remaining);
  }

  lemma EndOfScan(data: Bytes, done: seq<IE>, remaining: Bytes)
    requires NoElement(remaining) && Elements(data) == done + Elements(remaining)
    ensures Elements(data) == done
  {
  }

  method ParseCreatePdr(data: GroupBytes) returns (pdr: PdrInfo)
    ensures pdr == PdrOf(Elements(data))
  {
    hide Elements, PdiOf;
    pdr := ZERO_PDR;
    var remaining := data;
    ghost var done: seq<IE> := [];
    while |remaining| >= 4
      invariant |remaining| <= |data| && Elements(data) == done + Elements(remaining)
      invariant pdr == PdrOf(done)
      decreases |remaining|
    {
      var ieType := BE16(remaining[..2]);
      var ieLen := BE16(remaining[2..4]);
      if |remaining| < ieLen as int + 4 {
        break;
      }
      Turn(data, done, remaining);
      var ieValue := remaining[4..Wrap16(4 + ieLen as int)];
      ghost var ie := First(remaining);
      LastOfMore(done, ie, IE_PDR_ID, 2);
      LastOfMore(done, ie, IE_PDI, 0);
      if ieType == IE_PDR_ID {
        if |ieValue| >= 2 {
          pdr := pdr.(pdrId := BE16(ieValue[0..2]));
        }
      } else if ieType == IE_PDI {
        var pdi := ParsePdi(ieValue);
        pdr := pdr.(pdi := pdi);
      }
      done := done + [ie];
      remaining := remaining[Wrap16(4 + ieLen as int)..];
    }
    EndOfScan(data, done, remaining);
  }

  method ParseCreateFar(data: GroupBytes) returns (far: FarInfo)
    ensures far == FarOf(Elements(data))
  {
    hide BE32, Elements;
    far := ZERO_FAR;
    var remaining := data;
    ghost var done: seq<IE> := [];
    while |remaining| >= 4
      invariant |remaining| <= |data| && Elements(data) == done + Elements(remaining)
      invariant far == FarOf(done)
      decreases |remaining|
    {
      var ieType := BE16(remaining[..2]);
      var ieLen := BE16(remaining[2..4]);
      if |remaining| < ieLen as int + 4 {
        break;
      }
      Turn(data, done, remaining);
      var ieValue := remaining[4..Wrap16(4 + ieLen as int)];
      ghost var ie := First(remaining);
      LastOfMore(done, ie, IE_FAR_ID, 4);
      LastOfMore(done, ie, IE_APPLY_ACTION, 1);
      if ieType == IE_FAR_ID {
        if |ieValue| >= 4 {
          far := far.(farId := BE32(ieValue[0..4]));
        }
      } else if ieType == IE_APPLY_ACTION {
        if |ieValue| >= 1 {
          far := far.(action := ieValue[0]);
        }
      }
      done := done + [ie];
      remaining := remaining[Wrap16(4 + ieLen as int)..];
    }
    EndOfScan(data, done, remaining);
  }

  method ParseCreateQer(data: GroupBytes) returns (qer: QerInfo)
    ensures qer == QerOf(Elements(data))
  {
    hide BE32, BE64, Elements;
    qer := ZERO_QER;
    var remaining := data;
    ghost var done: seq<IE> := [];
    while |remaining| >= 4
      invariant |remaining| <= |data| && Elements(data) == done + Elements(remaining)
      invariant qer == QerOf(done)
      decreases |remaining|
    {
      var ieType := BE16(remaining[..2]);
      var ieLen := BE16(remaining[2..4]);
      if |remaining| < ieLen as int + 4 {
        break;
      }
      Turn(data, done, remaining);
      var ieValue := remaining[4..Wrap16(4 + ieLen as int)];
      ghost var ie := First(remaining);
      LastOfMore(done, ie, IE_QER_ID, 4);
      LastOfMore(done, ie, IE_QFI, 1);
      LastOfMore(done, ie, IE_GBR, 16);
      LastOfMore(done, ie, IE_MBR, 16);
      if ieType == IE_QER_ID {
        if |ieValue| >= 4 {
          qer := qer.(qerId := BE32(ieValue[0..4]));
        }
      } else if ieType == IE_QFI {
        if |ieValue| >= 1 {
          qer := qer.(qfi := ieValue[0] % 64);
        }
      } else if ieType == IE_GBR {
        if |ieValue| >= 16 {
          qer := qer.(gbrUl := BE64(ieValue[0..8]), gbrDl := BE64(ieValue[8..16]));
        }
      } else if ieType == IE_MBR {
        if |ieValue| >= 16 {
          qer := qer.(mbrUl := BE64(ieValue[0..8]), mbrDl := BE64(ieValue[8..16]));
        }
      }
      done := done + [ie];
      remaining := remaining[Wrap16(4 + ieLen as int)..];
    }
    EndOfScan(data, done, remaining);
  }

  // ---------- Session modification ----------

  function OfType(ies: seq<IE>, t: U16): (r: seq<IE>)
    ensures forall i :: 0 <= i < |r| ==> r[i] in ies && r[i].ieType == t
    ensures multiset(r) <= multiset(ies)
    ensures forall ie :: ie in ies && ie.ieType == t ==> ie in r
  {
    if ies == [] then [] else
    var front, last := ies[..|ies| - 1], ies[|ies| - 1];
    assert ies == front + [last];
    OfType(front, t) + (if last.ieType == t then [last] else [])
  }

  predicate PdrsOf(pdrs: seq<PdrInfo>, groups: seq<IE>) {
    |pdrs| == |groups| && forall i :: 0 <= i < |pdrs| ==> pdrs[i] == PdrOf(Elements(groups[i].value))
  }

  predicate FarsOf(fars: seq<FarInfo>, groups: seq<IE>) {
    |fars| == |groups| && forall i :: 0 <= i < |fars| ==> fars[i] == FarOf(Elements(groups[i].value))
  }

  predicate QersOf(qers: seq<QerInfo>, groups: seq<IE>) {
    |qers| == |groups| && forall i :: 0 <= i < |qers| ==> qers[i] == QerOf(Elements(groups[i].value))
  }

  /** One entry for each element of the group's type, in order. */
  predicate ModOf(mod: SessionMod, ies: seq<IE>) {
    && PdrsOf(mod.pdrs, OfType(ies, IE_CREATE_PDR))
    && FarsOf(mod.fars, OfType(ies, IE_CREATE_FAR))
    && QersOf(mod.qers, OfType(ies, IE_CREATE_QER))
  }

  lemma ModMore(mod: SessionMod, ies: seq<IE>, ie: IE, pdr: PdrInfo, far: FarInfo, qer: QerInfo)
    requires ModOf(mod, ies)
    ensures ie.ieType == IE_CREATE_PDR && pdr == PdrOf(Elements(ie.value))
            ==> ModOf(mod.(pdrs := mod.pdrs + [pdr]), ies + [ie])
    ensures ie.ieType == IE_CREATE_FAR && far == FarOf(Elements(ie.value))
            ==> ModOf(mod.(fars := mod.fars + [far]), ies + [ie])
    ensures ie.ieType == IE_CREATE_QER && qer == QerOf(Elements(ie.value))
            ==> ModOf(mod.(qers := mod.qers + [qer]), ies + [ie])
    ensures ie.ieType != IE_CREATE_PDR && ie.ieType != IE_CREATE_FAR && ie.ieType != IE_CREATE_QER
            ==> ModOf(mod, ies + [ie])
  {
    hide OfType, PdrOf, FarOf, QerOf, Elements;
    OfTypeMore(ies, ie, IE_CREATE_PDR);
    OfTypeMore(ies, ie, IE_CREATE_FAR);
    OfTypeMore(ies, ie, IE_CREATE_QER);
  }

  lemma OfTypeMore(ies: seq<IE>, ie: IE, t: U16)
    ensures OfType(ies + [ie], t) == OfType(ies, t) + (if ie.ieType == t then [ie] else [])
  {
    assert (ies + [ie])[..|ies|] == ies;
  }

  /** The elements of a type, in the order they came in. */
  lemma {:induction false} OfTypeJoins(a: seq<IE>, b: seq<IE>, t: U16)
    ensures OfType(a + b, t) == OfType(a, t) + OfType(b, t)
    decreases |b|
  {
    hide OfType;
    if b == [] {
      assert a + b == a;
      OfTypeNone(t);
    } else {
      var front, last := b[..|b| - 1], b[|b| - 1];
      assert b == front + [last];
      OfTypeJoins(a, front, t);
      JoinMore(a, front, last, t);
    }
  }

  lemma JoinMore(a: seq<IE>, front: seq<IE>, last: IE, t: U16)
    requires OfType(a + front, t) == OfType(a, t) + OfType(front, t)
    ensures OfType(a + (front + [last]), t) == OfType(a, t) + OfType(front + [last], t)
  {
    hide OfType;
    OfTypeMore(a + front, last, t);
    OfTypeMore(front, last, t);
    assert a + (front + [last]) == a + front + [last];
  }

  lemma OfTypeNone(t: U16)
    ensures OfType([], t) == []
  {
  }

  /** An element between others of the message gives the entry at its place among those of its type, and no other. */
  lemma ModificationIs(mod: SessionMod, before: seq<IE>, ie: IE, after: seq<IE>)
    requires ModOf(mod, before + [ie] + after)
    ensures ie.ieType == 1 ==> |mod.pdrs| == |OfType(before, 1)| + 1 + |OfType(after, 1)|
                               && mod.pdrs[|OfType(before, 1)|] == PdrOf(Elements(ie.value))
    ensures ie.ieType == 3 ==> |mod.fars| == |OfType(before, 3)| + 1 + |OfType(after, 3)|
                               && mod.fars[|OfType(before, 3)|] == FarOf(Elements(ie.value))
    ensures ie.ieType == 4 ==> |mod.qers| == |OfType(before, 4)| + 1 + |OfType(after, 4)|
                               && mod.qers[|OfType(before, 4)|] == QerOf(Elements(ie.value))
    ensures ie.ieType != 1 ==> |mod.pdrs| == |OfType(before, 1)| + |OfType(after, 1)|
    ensures ie.ieType != 3 ==> |mod.fars| == |OfType(before, 3)| + |OfType(after, 3)|
    ensures ie.ieType != 4 ==> |mod.qers| == |OfType(before, 4)| + |OfType(after, 4)|
  {
    hide PdrOf, FarOf, QerOf, Elements, OfType;
    SplitAround(before, ie, after, 1);
    SplitAround(before, ie, after, 3);
    SplitAround(before, ie, after, 4);
  }

  lemma SplitAround(before: seq<IE>, ie: IE, after: seq<IE>, t: U16)
    ensures OfType(before + [ie] + after, t)
            == OfType(before, t) + (if ie.ieType == t then [ie] else []) + OfType(after, t)
  {
    OfTypeJoins(before + [ie], after, t);
    OfTypeMore(before, ie, t);
  }

  method ParseSessionModification(msg: Message) returns (mod: SessionMod)
    requires AllWellFormed(msg.ies)
    ensures mod.seid == msg.header.seid && ModOf(mod, msg.ies)
  {
    hide ModOf, PdrOf, FarOf, QerOf, Elements;
    mod := SessionMod(msg.header.seid, [], [], []);
    EmptyMod(mod);
    for i := 0 to |msg.ies|
      invariant mod.seid == msg.header.seid && ModOf(mod, msg.ies[..i])
    {
      var ie := msg.ies[i];
      assert msg.ies[..i + 1] == msg.ies[..i] + [ie];
      assert WellFormed(ie);
      if ie.ieType == IE_CREATE_PDR {
        var pdr := ParseCreatePdr(ie.value);
        ModMore(mod, msg.ies[..i], ie, pdr, ZERO_FAR, ZERO_QER);
        mod := mod.(pdrs := mod.pdrs + [pdr]);
      } else if ie.ieType == IE_CREATE_FAR {
        var far := ParseCreateFar(ie.value);
        ModMore(mod, msg.ies[..i], ie, ZERO_PDR, far, ZERO_QER);
        mod := mod.(fars := mod.fars + [far]);
      } else if ie.ieType == IE_CREATE_QER {
        var qer := ParseCreateQer(ie.value);
        ModMore(mod, msg.ies[..i], ie, ZERO_PDR, ZERO_FAR, qer);
        mod := mod.(qers := mod.qers + [qer]);
      } else {
        ModMore(mod, msg.ies[..i], ie, ZERO_PDR, ZERO_FAR, ZERO_QER);
      }
    }
    assert msg.ies[..|msg.ies|] == msg.ies;
  }

  lemma EmptyMod(mod: SessionMod)
    requires mod.pdrs == [] && mod.fars == [] && mod.qers == []
    ensures ModOf(mod, [])
  {
  }

  // ---------- Round trips ----------

  function Element(t: U16, value: Bytes): IE
    requires |value| < 0x1_0000
  {
    IE(t, |value|, value)
  }

  /** A packet detection information group; three octets of F-TEID flags precede the TEID. */
  function PdiElements(p: Pdi): seq<IE>
    requires |p.networkInstance| < 0xFF00
  {
    [Element(IE_SOURCE_INTERFACE, [p.iface]), Element(IE_FTEID, [0, 0, 0] + PutBE32(p.teid)),
     Element(IE_QFI, [p.qfi]), Element(IE_NETWORK_INSTANCE, p.networkInstance)]
  }

  lemma PdiFields(p: Pdi)
    requires |p.networkInstance| < 0xFF00 && p.iface < 16 && p.qfi < 64
    ensures PdiOf(PdiElements(p)) == p
  {
    hide PutBE32, BE32, LastOf;
    var ies := PdiElements(p);
    LastOfIs(ies, 0, IE_SOURCE_INTERFACE, 1);
    LastOfIs(ies, 1, IE_FTEID, 7);
    LastOfIs(ies, 2, IE_QFI, 1);
    LastOfIs(ies, 3, IE_NETWORK_INSTANCE, 0);
    assert ies[1].value[3..7] == PutBE32(p.teid);
  }

  /** The octets of a detection group parse back to it. */
  lemma PdiRoundTrip(p: Pdi)
    requires |p.networkInstance| < 0xFF00 && p.iface < 16 && p.qfi < 64
    ensures PdiOf(Elements(EncodeAll(PdiElements(p)))) == p
  {
    hide PdiOf, EncodeAll, Elements;
    EncodeScan(PdiElements(p), []);
    assert EncodeAll(PdiElements(p)) + [] == EncodeAll(PdiElements(p));
    PdiFields(p);
  }

  /** A later detection group replaces the whole of an earlier one: only its own elements count. */
  lemma LaterPdiReplaces(before: seq<IE>, value: GroupBytes, after: seq<IE>)
    requires forall i :: 0 <= i < |after| ==> after[i].ieType != IE_PDI
    ensures PdrOf(before + [Element(IE_PDI, value)] + after).pdi == PdiOf(Elements(value))
  {
    hide PdiOf, Elements;
    LastOfIs(before + [Element(IE_PDI, value)] + after, |before|, IE_PDI, 0);
  }

  /** No element of the type is long enough. */
  predicate NoneLong(ies: seq<IE>, t: U16, min: nat) {
    forall i :: 0 <= i < |ies| ==> ies[i].ieType != t || |ies[i].value| < min
  }

  lemma NoneLongIs(ies: seq<IE>, t: U16, min: nat)
    requires NoneLong(ies, t, min)
    ensures LastOf(ies, t, min) == None
  {
    LastOfNoneIff(ies, t, min);
  }

  /** A field none of whose elements is long enough is zero, whatever an earlier group said. */
  lemma AbsentFieldsAreZero(ies: seq<IE>)
    ensures NoneLong(ies, 20, 1) ==> PdiOf(ies).iface == 0
    ensures NoneLong(ies, 21, 7) ==> PdiOf(ies).teid == 0
    ensures NoneLong(ies, 5, 1) ==> PdiOf(ies).qfi == 0 && QerOf(ies).qfi == 0
    ensures NoneLong(ies, 22, 0) ==> PdiOf(ies).networkInstance == []
    ensures NoneLong(ies, 56, 2) ==> PdrOf(ies).pdrId == 0
    ensures NoneLong(ies, 2, 0) ==> PdrOf(ies).pdi == Pdi(0, 0, 0, [])
    ensures NoneLong(ies, 108, 4) ==> FarOf(ies).farId == 0
    ensures NoneLong(ies, 44, 1) ==> FarOf(ies).action == 0
    ensures NoneLong(ies, 109, 4) ==> QerOf(ies).qerId == 0
    ensures NoneLong(ies, 24, 16) ==> QerOf(ies).gbrUl == 0 && QerOf(ies).gbrDl == 0
    ensures NoneLong(ies, 25, 16) ==> QerOf(ies).mbrUl == 0 && QerOf(ies).mbrDl == 0
  {
    hide LastOf, BE16, BE32, BE64, NoneLong, Elements;
    if NoneLong(ies, 20, 1) { NoneLongIs(ies, 20, 1); }
    if NoneLong(ies, 21, 7) { NoneLongIs(ies, 21, 7); }
    if NoneLong(ies, 5, 1) { NoneLongIs(ies, 5, 1); }
    if NoneLong(ies, 22, 0) { NoneLongIs(ies, 22, 0); }
    if NoneLong(ies, 56, 2) { NoneLongIs(ies, 56, 2); }
    if NoneLong(ies, 2, 0) { NoneLongIs(ies, 2, 0); }
    if NoneLong(ies, 108, 4) { NoneLongIs(ies, 108, 4); }
    if NoneLong(ies, 44, 1) { NoneLongIs(ies, 44, 1); }
    if NoneLong(ies, 109, 4) { NoneLongIs(ies, 109, 4); }
    if NoneLong(ies, 24, 16) { NoneLongIs(ies, 24, 16); }
    if NoneLong(ies, 25, 16) { NoneLongIs(ies, 25, 16); }
  }

  /** The elements of a QoS enforcement rule. */
  function QerElements(q: QerInfo): seq<IE> {
    [Element(IE_QER_ID, PutBE32(q.qerId)), Element(IE_QFI, [q.qfi]),
     Element(IE_GBR, PutBE64(q.gbrUl) + PutBE64(q.gbrDl)), Element(IE_MBR, PutBE64(q.mbrUl) + PutBE64(q.mbrDl))]
  }

  lemma QerFields(q: QerInfo)
    requires q.qfi < 64
    ensures QerOf(QerElements(q)) == q
  {
    hide PutBE32, BE32, PutBE64, BE64, LastOf;
    var ies := QerElements(q);
    var gbr, mbr := PutBE64(q.gbrUl) + PutBE64(q.gbrDl), PutBE64(q.mbrUl) + PutBE64(q.mbrDl);
    LastOfIs(ies, 0, IE_QER_ID, 4);
    LastOfIs(ies, 1, IE_QFI, 1);
    LastOfIs(ies, 2, IE_GBR, 16);
    LastOfIs(ies, 3, IE_MBR, 16);
    assert gbr[..8] == PutBE64(q.gbrUl) && gbr[8..16] == PutBE64(q.gbrDl);
    assert mbr[..8] == PutBE64(q.mbrUl) && mbr[8..16] == PutBE64(q.mbrDl);
    assert PutBE32(q.qerId)[..4] == PutBE32(q.qerId);
  }

  /** Uplink and downlink rates, identifier and QFI all survive encoding and parsing. */
  lemma QerRoundTrip(q: QerInfo)
    requires q.qfi < 64
    ensures QerOf(Elements(EncodeAll(QerElements(q)))) == q
  {
    hide QerOf, EncodeAll, Elements;
    EncodeScan(QerElements(q), []);
    assert EncodeAll(QerElements(q)) + [] == EncodeAll(QerElements(q));
    QerFields(q);
  }
}
