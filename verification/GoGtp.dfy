/**
 The control plane's GTP-U header parser, and the header it loses one octet of.
 */
module GoGtp {
  import opened Machine

  const GTP_HEADER_LEN: nat := 8
  const EXT_TYPE_PDU_SESSION: U8 := 0x85

  datatype ExtHeader = ExtHeader(extType: U8, length: U8, value: Bytes)

  datatype Header = Header(
    flags: U8, messageType: U8, length: U16, teid: U32, sequenceNum: U16, nPduNum: U8,
    nextExtType: U8, extHeaders: seq<ExtHeader>)

  datatype Error = TooShort | BadVersion | BadProtocol | OptionsTruncated | ExtensionTruncated | ValueTruncated

  datatype Result<+T> = Ok(value: T, offset: nat) | Err(error: Error)

  predicate HasExtension(flags: U8) { flags / 4 % 2 == 1 }

  /** Any of the E, S and PN flags makes the four optional octets present. */
  predicate HasOptions(flags: U8) { flags % 8 != 0 }

  /** The last octet before the extensions and the extensions themselves. */
  datatype Chain = Chain(nextExtType: U8, extHeaders: seq<ExtHeader>)

  /** The extension header at offset; its value holds everything after the length and the type. */
  function ExtAt(data: Bytes, offset: nat): ExtHeader
    requires offset < |data| && 0 < data[offset] && offset + 4 * data[offset] as int <= |data|
  {
    ExtHeader(data[offset + 1], data[offset] as int * 4 % 0x100, data[offset + 2..offset + 4 * data[offset] as int])
  }

  function ParseChain(data: Bytes, offset: nat, next: U8): (r: Result<Chain>)
    requires offset <= |data|
    ensures r.Ok? ==> offset <= r.offset <= |data|
    decreases |data| - offset
  {
    if next == 0 then Ok(Chain(next, []), offset)
    else if |data| < offset + 2 then Err(ExtensionTruncated)
    else if data[offset] == 0 then Ok(Chain(next, []), offset)
    else
      var extLen := 4 * data[offset] as int;
      if |data| < offset + extLen then Err(ValueTruncated)
      else match ParseChain(data, offset + extLen, data[offset + extLen - 1])
        case Err(e) => Err(e)
        case Ok(rest, end) => Ok(rest.(extHeaders := [ExtAt(data, offset)] + rest.extHeaders), end)
  }

  function FixedPart(data: Bytes): Header
    requires |data| >= GTP_HEADER_LEN
  {
    Header(data[0], data[1], BE16(data[2..4]), BE32(data[4..8]), 0, 0, 0, [])
  }

  function WithOptions(h: Header, data: Bytes): Header
    requires |data| >= 12
  {
    h.(sequenceNum := BE16(data[8..10]), nPduNum := data[10], nextExtType := data[11])
  }

  function Parse(data: Bytes): (r: Result<Header>)
    ensures r.Ok? ==> r.offset <= |data|
  {
    if |data| < GTP_HEADER_LEN then Err(TooShort) else
    var h := FixedPart(data);
    if h.flags / 32 != 1 then Err(BadVersion)
    else if h.flags / 16 % 2 != 1 then Err(BadProtocol)
    else if !HasOptions(h.flags) then Ok(h, GTP_HEADER_LEN)
    else if |data| < 12 then Err(OptionsTruncated)
    else if !HasExtension(h.flags) then Ok(WithOptions(h, data), 12)
    else match ParseChain(data, 12, data[11])
      case Err(e) => Err(e)
      case Ok(c, end) =>
        Ok(WithOptions(h, data).(nextExtType := c.nextExtType, extHeaders := c.extHeaders), end)
  }

  /** The loop over the extension headers terminates, and every index stays inside data. */
  method ParseHeader(data: Bytes) returns (r: Result<Header>)
    ensures r == Parse(data)
  {
    hide BE16, BE32, ParseChain;
    if |data| < GTP_HEADER_LEN {
      return Err(TooShort);
    }
    var h := Header(data[0], data[1], BE16(data[2..4]), BE32(data[4..8]), 0, 0, 0, []);
    if h.flags / 32 != 1 {
      return Err(BadVersion);
    }
    if h.flags / 16 % 2 != 1 {
      return Err(BadProtocol);
    }
    var offset := GTP_HEADER_LEN;
    if HasOptions(h.flags) {
      if |data| < offset + 4 {
        return Err(OptionsTruncated);
      }
      h := h.(sequenceNum := BE16(data[offset..offset + 2]), nPduNum := data[offset + 2],
              nextExtType := data[offset + 3]);
      offset := offset + 4;
    }
    if HasExtension(h.flags) {
      var r' := ParseExtensions(data, offset, h);
      return r';
    }
    return Ok(h, offset);
  }

  /** The header with the outcome of its extension chain. */
  function WithChain(h: Header, r: Result<Chain>): Result<Header> {
    match r
    case Err(e) => Err(e)
    case Ok(c, end) => Ok(h.(nextExtType := c.nextExtType, extHeaders := c.extHeaders), end)
  }

  /** The loop of ParseHeader over the extension headers. */
  method ParseExtensions(data: Bytes, start: nat, header: Header) returns (r: Result<Header>)
    requires start <= |data| && header.extHeaders == []
    ensures r == WithChain(header, ParseChain(data, start, header.nextExtType))
  {
    var h, offset := header, start;
    PrefixNone(ParseChain(data, offset, h.nextExtType));
    while h.nextExtType != 0
      invariant offset <= |data|
      invariant h == header.(nextExtType := h.nextExtType, extHeaders := h.extHeaders)
      invariant Prefixed(h.extHeaders, ParseChain(data, offset, h.nextExtType)) == ParseChain(data, start, header.nextExtType)
      decreases |data| - offset
    {
      if |data| < offset + 2 {
        return Err(ExtensionTruncated);
      }
      var extLen := data[offset] as int * 4;
      var extType := data[offset + 1];
      if extLen == 0 {
        break;
      }
      if |data| < offset + extLen {
        return Err(ValueTruncated);
      }
      ChainUnfolds(data, offset, h.nextExtType);
      var extHdr := ExtHeader(extType, extLen % 0x100, data[offset + 2..offset + extLen]);
      PrefixMore(h.extHeaders, extHdr, ParseChain(data, offset + extLen, data[offset + extLen - 1]));
      h := h.(extHeaders := h.extHeaders + [extHdr], nextExtType := data[offset + extLen - 1]);
      offset := offset + extLen;
    }
    assert h.extHeaders + [] == h.extHeaders;
    return Ok(h, offset);
  }

  /** A chain with extension headers already parsed put in front. */
  function Prefixed(done: seq<ExtHeader>, r: Result<Chain>): Result<Chain> {
    match r
    case Err(e) => Err(e)
    case Ok(c, end) => Ok(c.(extHeaders := done + c.extHeaders), end)
  }

  /** A chain that goes on: its first extension header, and the rest. */
  lemma ChainUnfolds(data: Bytes, offset: nat, next: U8)
    requires next != 0 && offset + 2 <= |data| && data[offset] != 0 && offset + 4 * data[offset] as int <= |data|
    ensures var end := offset + 4 * data[offset] as int;
      ParseChain(data, offset, next) == Prefixed([ExtAt(data, offset)], ParseChain(data, end, data[end - 1]))
  {
    hide ExtAt;
  }

  /** A parsed chain either ends here or goes on. */
  lemma ChainCases(data: Bytes, offset: nat, next: U8)
    requires offset <= |data| && ParseChain(data, offset, next).Ok?
    ensures
      if next == 0 || (offset + 2 <= |data| && data[offset] == 0) then
        ParseChain(data, offset, next) == Ok(Chain(next, []), offset)
      else
        offset + 2 <= |data| && offset + 4 * data[offset] as int <= |data|
  {
    hide ExtAt;
  }

  lemma PrefixNone(r: Result<Chain>)
    ensures Prefixed([], r) == r
  {
    assert r.Ok? ==> [] + r.value.extHeaders == r.value.extHeaders;
  }

  lemma PrefixMore(done: seq<ExtHeader>, e: ExtHeader, r: Result<Chain>)
    ensures Prefixed(done + [e], r) == Prefixed(done, Prefixed([e], r))
  {
    assert r.Ok? ==> done + [e] + r.value.extHeaders == done + ([e] + r.value.extHeaders);
  }

  // ---------- What a parsed header says about the bytes ----------

  function ExtBytes(e: ExtHeader): Bytes
    requires |e.value| <= 1018
  {
    [(|e.value| + 2) / 4, e.extType] + e.value
  }

  /** Values as the parser produces them: a whole number of four-octet units, less the first two octets. */
  predicate WellFormedExt(e: ExtHeader) {
    2 <= |e.value| <= 1018 && |e.value| % 4 == 2 && e.length == (|e.value| + 2) % 0x100
  }

  predicate WellFormedExts(es: seq<ExtHeader>) {
    forall i :: 0 <= i < |es| ==> WellFormedExt(es[i])
  }

  function ChainBytes(es: seq<ExtHeader>): Bytes
    requires WellFormedExts(es)
  {
    if es == [] then [] else ExtBytes(es[0]) + ChainBytes(es[1..])
  }

  /** The octet that announces what follows an extension header: its last. */
  function LastOctet(e: ExtHeader): U8 {
    if e.value == [] then 0 else e.value[|e.value| - 1]
  }

  function LastNext(next: U8, es: seq<ExtHeader>): U8 {
    if es == [] then next else LastOctet(es[|es| - 1])
  }

  lemma ExtLossless(data: Bytes, offset: nat)
    requires offset < |data| && 0 < data[offset] && offset + 4 * data[offset] as int <= |data|
    ensures var e := ExtAt(data, offset);
      && WellFormedExt(e)
      && data[offset..offset + 4 * data[offset] as int] == ExtBytes(e)
      && LastOctet(e) == data[offset + 4 * data[offset] as int - 1]
  {
    var e, end := ExtAt(data, offset), offset + 4 * data[offset] as int;
    assert |e.value| == 4 * data[offset] as int - 2;
    assert data[offset..end] == [data[offset], data[offset + 1]] + data[offset + 2..end];
  }

  /** The converse: an extension header's bytes are parsed back to it. */
  lemma ExtParsesBack(before: Bytes, e: ExtHeader, after: Bytes)
    requires WellFormedExt(e)
    ensures var data := before + ExtBytes(e) + after; var n := |before|;
      && |ExtBytes(e)| >= 4 && 0 < data[n] && 4 * data[n] as int == |ExtBytes(e)| && ExtAt(data, n) == e
      && data[n + 4 * data[n] as int - 1] == LastOctet(e)
  {
    var data, n := before + ExtBytes(e) + after, |before|;
    assert data[n] == (|e.value| + 2) / 4;
    assert data[n + 1] == e.extType;
    assert data[n + 2..n + |ExtBytes(e)|] == e.value;
  }

  /** The consumed extension bytes are exactly those of the parsed extension headers. */
  lemma {:induction false} ChainLossless(data: Bytes, offset: nat, next: U8)
    requires offset <= |data| && ParseChain(data, offset, next).Ok?
    ensures var r := ParseChain(data, offset, next);
      && WellFormedExts(r.value.extHeaders)
      && data[offset..r.offset] == ChainBytes(r.value.extHeaders)
      && r.value.nextExtType == LastNext(next, r.value.extHeaders)
    decreases |data| - offset
  {
    hide ExtBytes, ExtAt, WellFormedExt, ParseChain;
    ChainCases(data, offset, next);
    var r := ParseChain(data, offset, next);
    if next == 0 || data[offset] == 0 {
    } else {
      var e := ExtAt(data, offset);
      var end := offset + 4 * data[offset] as int;
      ChainUnfolds(data, offset, next);
      ChainLossless(data, end, data[end - 1]);
      var rest := ParseChain(data, end, data[end - 1]).value.extHeaders;
      assert r.value.extHeaders[0] == e && r.value.extHeaders[1..] == rest;
      ExtLossless(data, offset);
      assert data[offset..r.offset] == data[offset..end] + data[end..r.offset];
    }
  }

  /** The bytes of a header; octet 11 is not recorded once an extension header has been parsed. */
  function HeaderBytes(h: Header, octet11: U8): Bytes
    requires WellFormedExts(h.extHeaders)
  {
    [h.flags, h.messageType] + PutBE16(h.length) + PutBE32(h.teid)
    + (if HasOptions(h.flags) then PutBE16(h.sequenceNum) + [h.nPduNum, octet11] else [])
    + ChainBytes(h.extHeaders)
  }

  /** Every consumed byte can be read off the parsed header, save octet 11 after an extension. */
  lemma ParseLossless(data: Bytes)
    requires Parse(data).Ok?
    ensures var r := Parse(data);
      && WellFormedExts(r.value.extHeaders)
      && (r.value.extHeaders != [] ==> HasExtension(r.value.flags) && r.offset > 12)
      && (HasOptions(r.value.flags) ==> r.offset >= 12)
      && data[..r.offset] == HeaderBytes(r.value,
           if r.value.extHeaders == [] || !HasOptions(r.value.flags) then r.value.nextExtType else data[11])
  {
    var r := Parse(data);
    var h := r.value;
    FixedBytes(data);
    if !HasOptions(h.flags) {
      assert data[..r.offset] == data[..8] + [] + [];
    } else {
      assert data[8..12] == PutBE16(h.sequenceNum) + [h.nPduNum, data[11]] by {
        PutBE16Inverse(data[8..10]);
        assert data[8..12] == data[8..10] + [data[10], data[11]];
      }
      if !HasExtension(h.flags) {
        assert data[..r.offset] == data[..8] + data[8..12] + [];
      } else {
        ChainLossless(data, 12, data[11]);
        assert data[..r.offset] == data[..8] + data[8..12] + data[12..r.offset];
      }
    }
  }

  lemma FixedBytes(data: Bytes)
    requires |data| >= 8
    ensures data[..8] == [data[0], data[1]] + PutBE16(BE16(data[2..4])) + PutBE32(BE32(data[4..8]))
  {
    hide PutBE16, PutBE32, BE16, BE32;
    PutBE16Inverse(data[2..4]);
    PutBE32Inverse(data[4..8]);
    assert data[..8] == [data[0], data[1]] + data[2..4] + data[4..8];
  }

  /**
   Inputs that parse to equal headers consumed the same number of bytes and agree on each of them,
   except possibly octet 11, and there only when an extension header was parsed.
   */
  lemma EqualHeadersEqualBytes(d1: Bytes, d2: Bytes)
    requires Parse(d1).Ok? && Parse(d2).Ok? && Parse(d1).value == Parse(d2).value
    ensures var r := Parse(d1);
      && Parse(d2).offset == r.offset
      && forall i :: 0 <= i < r.offset && (i == 11 ==> r.value.extHeaders == []) ==> d1[i] == d2[i]
  {
    hide Parse;
    ParseLossless(d1);
    ParseLossless(d2);
    var r, s := Parse(d1), Parse(d2);
    var h := r.value;
    if h.extHeaders == [] || !HasOptions(h.flags) {
      assert d1[..r.offset] == d2[..s.offset];
    } else {
      var front := [h.flags, h.messageType] + PutBE16(h.length) + PutBE32(h.teid) + PutBE16(h.sequenceNum) + [h.nPduNum];
      var tail := ChainBytes(h.extHeaders);
      assert d1[..r.offset] == front + [d1[11]] + tail;
      assert d2[..s.offset] == front + [d2[11]] + tail;
    }
    forall i | 0 <= i < r.offset && (i == 11 ==> h.extHeaders == [])
      ensures d1[i] == d2[i]
    {
      assert d1[i] == d1[..r.offset][i] && d2[i] == d2[..s.offset][i];
    }
  }

  /** The two inputs agree from an offset on. */
  predicate SameFrom(d1: Bytes, d2: Bytes, offset: nat) {
    |d1| == |d2| && forall i :: offset <= i < |d1| ==> d1[i] == d2[i]
  }

  /** A chain is parsed from its own octets alone. */
  lemma {:induction false} ChainLooksAhead(d1: Bytes, d2: Bytes, offset: nat, next: U8)
    requires offset <= |d1| && SameFrom(d1, d2, offset)
    ensures ParseChain(d1, offset, next) == ParseChain(d2, offset, next)
    decreases |d1| - offset
  {
    hide ExtAt;
    if next != 0 && offset + 2 <= |d1| {
      var end := offset + 4 * d1[offset] as int;
      if d1[offset] != 0 && end <= |d1| {
        assert ExtAt(d1, offset) == ExtAt(d2, offset) by { ExtLooksAhead(d1, d2, offset); }
        ChainLooksAhead(d1, d2, end, d1[end - 1]);
      }
    }
  }

  lemma ExtLooksAhead(d1: Bytes, d2: Bytes, offset: nat)
    requires offset + 2 <= |d1| && SameFrom(d1, d2, offset)
    requires d1[offset] != 0 && offset + 4 * d1[offset] as int <= |d1|
    ensures ExtAt(d1, offset) == ExtAt(d2, offset)
  {
  }

  /** Once an extension header has been parsed, any nonzero octet 11 would have given the same result. */
  lemma Octet11IsLost(data: Bytes, x: U8)
    requires Parse(data).Ok? && Parse(data).value.extHeaders != [] && x != 0
    ensures |data| > 11 && Parse(data[11 := x]) == Parse(data)
  {
    hide BE16, BE32;
    var d := data[11 := x];
    ChainFirstOctetNonzero(data);
    assert d[2..4] == data[2..4] && d[4..8] == data[4..8] && d[8..10] == data[8..10];
    ChainLooksAhead(data, d, 12, data[11]);
    ChainIgnoresAnnouncement(d, 12, data[11], x);
  }

  lemma ChainFirstOctetNonzero(data: Bytes)
    requires Parse(data).Ok? && Parse(data).value.extHeaders != []
    ensures |data| >= 12 && data[11] != 0 && HasExtension(data[0]) && ParseChain(data, 12, data[11]).Ok?
    ensures ParseChain(data, 12, data[11]).value.extHeaders == Parse(data).value.extHeaders
  {
    hide BE16, BE32;
  }

  /** Which nonzero type was announced makes no difference, unless the chain is empty. */
  lemma ChainIgnoresAnnouncement(data: Bytes, offset: nat, n1: U8, n2: U8)
    requires offset <= |data| && n1 != 0 && n2 != 0
    requires ParseChain(data, offset, n1).Ok? && ParseChain(data, offset, n1).value.extHeaders != []
    ensures ParseChain(data, offset, n2) == ParseChain(data, offset, n1)
  {
    hide ExtAt;
  }

  predicate UnchangedBy(data: Bytes, x: U8)
    requires |data| > 11
  {
    Parse(data[11 := x]) == Parse(data)
  }

  /** So octet 11 is recoverable exactly when no extension header was parsed. */
  lemma Octet11LostIff(data: Bytes)
    requires Parse(data).Ok? && HasOptions(data[0])
    ensures |data| > 11
    ensures (exists x: U8 :: x != data[11] && UnchangedBy(data, x))
            <==> Parse(data).value.extHeaders != []
  {
    hide Parse;
    ParseLossless(data);
    var r := Parse(data);
    HeaderFlagsKept(data);
    if r.value.extHeaders != [] {
      var x: U8 := if data[11] == 1 then 2 else 1;
      Octet11IsLost(data, x);
      assert x != data[11] && UnchangedBy(data, x);
    } else {
      forall x: U8 | x != data[11]
        ensures !UnchangedBy(data, x)
      {
        if UnchangedBy(data, x) {
          EqualHeadersEqualBytes(data, data[11 := x]);
        }
      }
    }
  }

  lemma HeaderFlagsKept(data: Bytes)
    requires Parse(data).Ok?
    ensures |data| >= 8 && Parse(data).value.flags == data[0]
    ensures HasOptions(data[0]) ==> |data| >= 12 && Parse(data).offset >= 12
  {
    hide BE16, BE32;
  }

  // ---------- The converse: building a header and parsing it ----------

  /** The extensions chain on: each but the last announces another, and the last announces none. */
  predicate Linked(next: U8, es: seq<ExtHeader>)
    decreases |es|
  {
    if es == [] then next == 0 else next != 0 && Linked(LastOctet(es[0]), es[1..])
  }

  /** Parsing one extension header's bytes and going on after them. */
  lemma ChainStepsOver(before: Bytes, next: U8, e: ExtHeader, after: Bytes)
    requires WellFormedExt(e) && next != 0
    ensures ParseChain(before + ExtBytes(e) + after, |before|, next)
            == Prefixed([e], ParseChain(before + ExtBytes(e) + after, |before + ExtBytes(e)|, LastOctet(e)))
  {
    hide LastOctet, ExtAt, ExtBytes, ParseChain;
    ExtParsesBack(before, e, after);
    ChainUnfolds(before + ExtBytes(e) + after, |before|, next);
  }

  lemma ChainBytesStep(es: seq<ExtHeader>)
    requires WellFormedExts(es) && es != []
    ensures WellFormedExt(es[0]) && WellFormedExts(es[1..])
    ensures ChainBytes(es) == ExtBytes(es[0]) + ChainBytes(es[1..])
  {
  }

  lemma LinkedStep(next: U8, es: seq<ExtHeader>)
    requires Linked(next, es) && es != []
    ensures next != 0 && Linked(LastOctet(es[0]), es[1..])
  {
  }

  lemma {:induction false} ChainRoundTrip(before: Bytes, next: U8, es: seq<ExtHeader>, payload: Bytes)
    requires WellFormedExts(es) && Linked(next, es)
    ensures ParseChain(before + ChainBytes(es) + payload, |before|, next)
            == Ok(Chain(0, es), |before| + |ChainBytes(es)|)
    decreases |es|
  {
    if es == [] {
    } else {
      hide *;
      LinkedStep(next, es);
      ChainBytesStep(es);
      var e, b, more := es[0], ExtBytes(es[0]), ChainBytes(es[1..]);
      ChainStepsOver(before, next, e, more + payload);
      ChainRoundTrip(before + b, LastOctet(e), es[1..], payload);
      Regroup(before, b, more, payload);
      PrefixedOk(e, es, |before + b| + |more|);
    }
  }

  lemma Regroup(a: Bytes, b: Bytes, c: Bytes, d: Bytes)
    ensures a + (b + c) + d == a + b + (c + d)
    ensures (a + b) + c + d == a + b + (c + d)
  {
  }

  lemma PrefixedOk(e: ExtHeader, es: seq<ExtHeader>, end: nat)
    requires es != [] && es[0] == e
    ensures Prefixed([e], Ok(Chain(0, es[1..]), end)) == Ok(Chain(0, es), end)
  {
    assert [e] + es[1..] == es;
  }

  /** A header the format can express, with its chain announced by octet11 and closed. */
  predicate Expressible(h: Header, octet11: U8) {
    && h.flags / 32 == 1 && h.flags / 16 % 2 == 1
    && WellFormedExts(h.extHeaders)
    && (!HasOptions(h.flags) ==> h.sequenceNum == 0 && h.nPduNum == 0 && h.nextExtType == 0 && h.extHeaders == [])
    && (HasOptions(h.flags) && !HasExtension(h.flags) ==> h.extHeaders == [] && h.nextExtType == octet11)
    && (HasExtension(h.flags) ==> h.nextExtType == 0 && Linked(octet11, h.extHeaders))
  }

  /** Parsing the bytes of an expressible header gives it back, whatever payload follows. */
  lemma RoundTrip(h: Header, octet11: U8, payload: Bytes)
    requires Expressible(h, octet11)
    ensures Parse(HeaderBytes(h, octet11) + payload) == Ok(h, |HeaderBytes(h, octet11)|)
  {
    hide PutBE16, PutBE32, BE16, BE32;
    var data := HeaderBytes(h, octet11) + payload;
    var fixed := [h.flags, h.messageType] + PutBE16(h.length) + PutBE32(h.teid);
    var options := PutBE16(h.sequenceNum) + [h.nPduNum, octet11];
    assert data[2..4] == PutBE16(h.length) && data[4..8] == PutBE32(h.teid);
    if HasOptions(h.flags) {
      assert data == fixed + options + ChainBytes(h.extHeaders) + payload;
      assert data[8..10] == PutBE16(h.sequenceNum);
      if HasExtension(h.flags) {
        ChainRoundTrip(fixed + options, octet11, h.extHeaders, payload);
      }
    }
  }

  // ---------- Every outcome of the parser ----------

  /** How the chain ends after some extension headers, the last of which announced next, in front of the octets after. */
  function ChainEnd(next: U8, es: seq<ExtHeader>, after: Bytes, offset: nat): Result<Chain> {
    if next == 0 then Ok(Chain(0, es), offset)
    else if |after| < 2 then Err(ExtensionTruncated)
    else if after[0] == 0 then Ok(Chain(next, es), offset)
    else Err(ValueTruncated)
  }

  /** Each extension header but the last announces another. */
  predicate Announced(next: U8, es: seq<ExtHeader>)
    decreases |es|
  {
    es != [] ==> next != 0 && Announced(LastOctet(es[0]), es[1..])
  }

  /** No further extension header fits: nothing is announced, too little is left, or its length is 0 or too long. */
  predicate ChainStops(next: U8, after: Bytes) {
    next == 0 || |after| < 2 || after[0] == 0 || 4 * after[0] as int > |after|
  }

  lemma LastNextStep(next: U8, es: seq<ExtHeader>)
    requires es != []
    ensures LastNext(next, es) == LastNext(LastOctet(es[0]), es[1..])
  {
  }

  /**
   The outcome of parsing any chain: the extension headers there are, in order, and behind them success if no
   more is announced or the next length is 0, and an error if fewer than two octets or less than the
   announced length are left.
   */
  lemma {:induction false} ChainIs(before: Bytes, next: U8, es: seq<ExtHeader>, after: Bytes)
    requires WellFormedExts(es) && Announced(next, es) && ChainStops(LastNext(next, es), after)
    ensures ParseChain(before + ChainBytes(es) + after, |before|, next)
            == ChainEnd(LastNext(next, es), es, after, |before| + |ChainBytes(es)|)
    decreases |es|
  {
    if es == [] {
      hide *;
      NothingFits(before, next, es, after);
    } else {
      hide *;
      AnnouncedStep(next, es);
      ChainBytesStep(es);
      LastNextStep(next, es);
      var e, b, more := es[0], ExtBytes(es[0]), ChainBytes(es[1..]);
      ChainStepsOver(before, next, e, more + after);
      ChainIs(before + b, LastOctet(e), es[1..], after);
      Regroup(before, b, more, after);
      EndPrefixed(e, es, LastNext(next, es), after, |before + b| + |more|);
    }
  }

  lemma AnnouncedStep(next: U8, es: seq<ExtHeader>)
    requires Announced(next, es) && es != []
    ensures next != 0 && Announced(LastOctet(es[0]), es[1..])
  {
  }

  lemma NothingFits(before: Bytes, next: U8, es: seq<ExtHeader>, after: Bytes)
    requires es == [] && WellFormedExts(es) && ChainStops(LastNext(next, es), after)
    ensures ParseChain(before + ChainBytes(es) + after, |before|, next)
            == ChainEnd(LastNext(next, es), es, after, |before| + |ChainBytes(es)|)
  {
    NoChain(next, es);
    hide *;
    assert before + ChainBytes(es) + after == before + after;
    ChainAtEnd(before, next, after);
  }

  lemma NoChain(next: U8, es: seq<ExtHeader>)
    requires es == [] && WellFormedExts(es)
    ensures ChainBytes(es) == [] && LastNext(next, es) == next
  {
  }

  lemma ChainAtEnd(before: Bytes, next: U8, after: Bytes)
    requires ChainStops(next, after)
    ensures ParseChain(before + after, |before|, next) == ChainEnd(next, [], after, |before|)
  {
    hide ExtAt;
    var data := before + after;
    assert |after| >= 1 ==> data[|before|] == after[0];
  }

  lemma EndPrefixed(e: ExtHeader, es: seq<ExtHeader>, next: U8, after: Bytes, end: nat)
    requires es != [] && es[0] == e
    ensures Prefixed([e], ChainEnd(next, es[1..], after, end)) == ChainEnd(next, es, after, end)
  {
    assert [e] + es[1..] == es;
  }

  /** What comes before the extensions: the checks in order, and the fields a header without extensions gets. */
  lemma ParseIs(data: Bytes)
    ensures |data| < 8 ==> Parse(data) == Err(TooShort)
    ensures |data| >= 8 && data[0] / 32 != 1 ==> Parse(data) == Err(BadVersion)
    ensures |data| >= 8 && data[0] / 32 == 1 && data[0] / 16 % 2 != 1 ==> Parse(data) == Err(BadProtocol)
    ensures |data| >= 8 && data[0] / 32 == 1 && data[0] / 16 % 2 == 1 && data[0] % 8 != 0 && |data| < 12
            ==> Parse(data) == Err(OptionsTruncated)
    ensures |data| >= 8 && data[0] / 32 == 1 && data[0] / 16 % 2 == 1 && data[0] % 8 == 0
            ==> Parse(data) == Ok(Header(data[0], data[1], BE16(data[2..4]), BE32(data[4..8]), 0, 0, 0, []), 8)
    ensures |data| >= 12 && data[0] / 32 == 1 && data[0] / 16 % 2 == 1 && data[0] % 8 != 0 ==>
              var h := Header(data[0], data[1], BE16(data[2..4]), BE32(data[4..8]), BE16(data[8..10]), data[10], data[11], []);
              Parse(data) == if data[0] / 4 % 2 == 1 then WithChain(h, ParseChain(data, 12, data[11])) else Ok(h, 12)
  {
    hide BE16, BE32, ParseChain;
  }

  // ---------- HeaderLen and GetQFI ----------

  function LengthSum(es: seq<ExtHeader>): nat {
    if es == [] then 0 else LengthSum(es[..|es| - 1]) + es[|es| - 1].length
  }

  function HeaderLenOf(h: Header): nat {
    GTP_HEADER_LEN + (if HasOptions(h.flags) then 4 else 0) + LengthSum(h.extHeaders)
  }

  method HeaderLen(h: Header) returns (length: nat)
    ensures length == HeaderLenOf(h)
  {
    length := GTP_HEADER_LEN;
    if HasOptions(h.flags) {
      length := length + 4;
    }
    ghost var base := length;
    for i := 0 to |h.extHeaders|
      invariant length == base + LengthSum(h.extHeaders[..i])
    {
      assert h.extHeaders[..i + 1][..i] == h.extHeaders[..i];
      length := length + h.extHeaders[i].length;
    }
    assert h.extHeaders[..|h.extHeaders|] == h.extHeaders;
  }

  lemma {:induction false} LengthSumFromFront(es: seq<ExtHeader>)
    requires es != []
    ensures LengthSum(es) == es[0].length + LengthSum(es[1..])
    decreases |es|
  {
    if |es| == 1 {
      assert es[..0] == [];
    } else {
      LengthSumFromFront(es[..|es| - 1]);
      assert es[..|es| - 1][1..] == es[1..][..|es| - 2];
    }
  }

  /** Every extension header spans fewer than 64 four-octet units. */
  predicate AllShort(es: seq<ExtHeader>) {
    forall i :: 0 <= i < |es| ==> |es[i].value| + 2 < 0x100
  }

  lemma AllShortStep(es: seq<ExtHeader>)
    requires es != []
    ensures AllShort(es) <==> |es[0].value| + 2 < 0x100 && AllShort(es[1..])
  {
    assert forall i :: 1 <= i < |es| ==> es[i] == es[1..][i - 1];
    assert forall i :: 0 <= i < |es| - 1 ==> es[1..][i] == es[i + 1];
  }

  /** Each extension of 256 octets or more is undercounted by its multiple of 256. */
  lemma {:induction false} ChainLength(es: seq<ExtHeader>)
    requires WellFormedExts(es)
    ensures |ChainBytes(es)| >= LengthSum(es) && (|ChainBytes(es)| - LengthSum(es)) % 0x100 == 0
    ensures |ChainBytes(es)| == LengthSum(es) <==> AllShort(es)
    decreases |es|
  {
    if es == [] {
    } else {
      hide *;
      ChainBytesStep(es);
      ChainLength(es[1..]);
      LengthSumFromFront(es);
      AllShortStep(es);
      OneExtLength(es[0]);
      MultiplesAdd(|ExtBytes(es[0])| - es[0].length, |ChainBytes(es[1..])| - LengthSum(es[1..]));
    }
  }

  lemma MultiplesAdd(x: nat, y: nat)
    requires x % 0x100 == 0 && y % 0x100 == 0
    ensures (x + y) % 0x100 == 0
  {
  }

  lemma OneExtLength(e: ExtHeader)
    requires WellFormedExt(e)
    ensures |ExtBytes(e)| >= e.length && (|ExtBytes(e)| - e.length) % 0x100 == 0
    ensures |ExtBytes(e)| == e.length <==> |e.value| + 2 < 0x100
  {
  }

  /**
   HeaderLen falls short of the bytes consumed by a multiple of 256, and is exact precisely when
   every parsed extension header spans fewer than 64 four-octet units.
   */
  lemma HeaderLenAgainstOffset(data: Bytes)
    requires Parse(data).Ok?
    ensures var r := Parse(data);
      && r.offset >= HeaderLenOf(r.value) && (r.offset - HeaderLenOf(r.value)) % 0x100 == 0
      && (r.offset == HeaderLenOf(r.value) <==> AllShort(r.value.extHeaders))
  {
    hide Parse;
    ParseLossless(data);
    var r := Parse(data);
    ChainLength(r.value.extHeaders);
    assert |data[..r.offset]| == r.offset;
  }

  /** GetQFI: from the first PDU session extension, if there is one. */
  method GetQfi(h: Header) returns (qfi: U8, ok: bool)
    ensures ok <==> exists i :: 0 <= i < |h.extHeaders| && IsPduSession(h.extHeaders[i])
    ensures Some(qfi) == QfiOf(h.extHeaders) || (!ok && qfi == 0 && QfiOf(h.extHeaders).None?)
    ensures ok <==> QfiOf(h.extHeaders).Some?
  {
    for i := 0 to |h.extHeaders|
      invariant forall k :: 0 <= k < i ==> !IsPduSession(h.extHeaders[k])
      invariant QfiOf(h.extHeaders) == QfiOf(h.extHeaders[i..])
    {
      if h.extHeaders[i].extType == EXT_TYPE_PDU_SESSION && |h.extHeaders[i].value| >= 1 {
        assert IsPduSession(h.extHeaders[i]);
        return h.extHeaders[i].value[0] % 64, true;
      }
      assert h.extHeaders[i..][1..] == h.extHeaders[i + 1..];
    }
    return 0, false;
  }

  predicate IsPduSession(e: ExtHeader) {
    e.extType == EXT_TYPE_PDU_SESSION && |e.value| >= 1
  }

  function QfiOf(es: seq<ExtHeader>): Option<U8> {
    if es == [] then None
    else if IsPduSession(es[0]) then Some(es[0].value[0] % 64)
    else QfiOf(es[1..])
  }

  /** The QFI comes from the first extension header of type 0x85 that has a value. */
  lemma {:induction false} QfiOfIs(es: seq<ExtHeader>, i: nat)
    requires i < |es| && es[i].extType == 0x85 && es[i].value != []
    requires forall j :: 0 <= j < i ==> es[j].extType != 0x85 || es[j].value == []
    ensures QfiOf(es) == Some(es[i].value[0] % 64)
    decreases |es|
  {
    if i > 0 {
      QfiOfIs(es[1..], i - 1);
    }
  }

  /** And there is none if no such header is in the chain. */
  lemma {:induction false} QfiOfNone(es: seq<ExtHeader>)
    requires forall j :: 0 <= j < |es| ==> es[j].extType != 0x85 || es[j].value == []
    ensures QfiOf(es).None?
    decreases |es|
  {
    if es != [] {
      QfiOfNone(es[1..]);
    }
  }
}
