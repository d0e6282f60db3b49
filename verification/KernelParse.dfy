/**
 The data plane's header parsers: Ethernet, IPv4, UDP and GTP-U with its extension headers,
 each advancing a cursor over the frame.
 */
module KernelParse {
  import opened Machine

  /** Frame lengths fit 16 bits, as the total length of an IPv4 packet does. */
  type Frame = f: Bytes | |f| <= 0xFFFF

  const ETH_HLEN: nat := 14
  const IP_HLEN: nat := 20
  const UDP_HLEN: nat := 8
  const GTPU_HEADER_LEN: nat := 8
  const ETH_P_IP: U16 := 0x0800
  const IPPROTO_UDP: U8 := 17
  const GTPU_PORT: U16 := 2152

  // Bits of the GTP-U flags octet.

  predicate HasExtension(flags: U8) { flags / 4 % 2 == 1 }

  predicate HasSequenceOrNPdu(flags: U8) { flags % 4 != 0 }

  /** Version 1 in the top three bits and protocol type GTP in the fourth. */
  predicate IsGtpV1(flags: U8) { flags / 32 == 1 && flags / 16 % 2 == 1 }

  function GtpuHdrLen(flags: U8): U16 {
    8 + (if HasSequenceOrNPdu(flags) then 4 else 0) + (if HasExtension(flags) then 2 else 0)
  }

  /**
   The header length after walking the extension headers from hdrLen, the next of which spans
   extLen four-byte units; None when one reaches beyond the frame.
   */
  function WalkExtensions(frame: Frame, at: nat, hdrLen: nat, extLen: U8): (len: Option<nat>)
    requires 2 <= hdrLen && at + hdrLen <= |frame|
    ensures len.Some? ==>
              && hdrLen <= len.value && at + len.value <= |frame|
              && (len.value - hdrLen) % 4 == 0
              && (if extLen == 0 then len.value == hdrLen else frame[at + len.value - 2] == 0)
    decreases |frame| - (at + hdrLen)
  {
    if extLen == 0 then Some(hdrLen)
    else if at + hdrLen + extLen * 4 > |frame| then None
    else WalkExtensions(frame, at, hdrLen + extLen * 4, frame[at + hdrLen + extLen * 4 - 2])
  }

  /** The GTP-U header starting at `at`: its length, or None when the kernel drops the frame. */
  function GtpuLen(frame: Frame, at: nat): (len: Option<nat>)
    ensures len.Some? ==>
              && at + 8 <= |frame| && IsGtpV1(frame[at])
              && GtpuHdrLen(frame[at]) <= len.value && at + len.value <= |frame|
              && len.value % 4 == GtpuHdrLen(frame[at]) % 4
              && (!HasExtension(frame[at]) ==> len.value == GtpuHdrLen(frame[at]))
  {
    if at + GTPU_HEADER_LEN > |frame| then None
    else if !IsGtpV1(frame[at]) then None
    else
      var base := GtpuHdrLen(frame[at]);
      if at + base > |frame| then None
      else if !HasExtension(frame[at]) then Some(base)
      else WalkExtensions(frame, at, base, frame[at + GTPU_HEADER_LEN])
  }

  // ---------- The header length, octet by octet ----------

  /** The octets spanned by extension headers of the given numbers of four-octet units. */
  function Span(ns: seq<U8>): nat {
    if ns == [] then 0 else 4 * ns[0] as int + Span(ns[1..])
  }

  lemma SpanStep(ns: seq<U8>, i: nat)
    requires 0 < i <= |ns|
    ensures Span(ns[..i]) == 4 * ns[0] as int + Span(ns[1..][..i - 1])
  {
    assert ns[..i][1..] == ns[1..][..i - 1];
  }

  /** The length octet that follows the first i units of ns: the second last before the next header. */
  function LengthOctet(frame: Frame, at: nat, hdrLen: nat, first: U8, ns: seq<U8>, i: nat): U8
    requires i <= |ns| && 2 <= hdrLen && at + hdrLen + Span(ns[..i]) <= |frame|
  {
    if i == 0 then first else frame[at + hdrLen + Span(ns[..i]) - 2]
  }

  /** The walk meets exactly the nonzero length octets ns, each but perhaps the last ending inside the frame. */
  predicate Meets(frame: Frame, at: nat, hdrLen: nat, first: U8, ns: seq<U8>)
    requires 2 <= hdrLen
  {
    forall i :: 0 <= i < |ns| ==>
      && ns[i] != 0
      && at + hdrLen + Span(ns[..i]) <= |frame|
      && LengthOctet(frame, at, hdrLen, first, ns, i) == ns[i]
  }

  lemma MeetsRest(frame: Frame, at: nat, hdrLen: nat, first: U8, ns: seq<U8>)
    requires 2 <= hdrLen && ns != [] && at + hdrLen + 4 * ns[0] as int <= |frame|
    requires Meets(frame, at, hdrLen, first, ns)
    ensures var h := hdrLen + 4 * ns[0] as int; Meets(frame, at, h, frame[at + h - 2], ns[1..])
  {
    var h := hdrLen + 4 * ns[0] as int;
    forall j | 0 <= j < |ns| - 1
      ensures ns[1..][j] != 0 && at + h + Span(ns[1..][..j]) <= |frame|
              && LengthOctet(frame, at, h, frame[at + h - 2], ns[1..], j) == ns[1..][j]
    {
      SpanStep(ns, j + 1);
      hide Span;
      assert LengthOctet(frame, at, hdrLen, first, ns, j + 1) == ns[j + 1];
      SpanNone();
      assert ns[1..][..0] == [];
    }
  }

  lemma MeetsAll(frame: Frame, at: nat, hdrLen: nat, n: U8, rest: seq<U8>)
    requires 2 <= hdrLen && n != 0 && at + hdrLen + 4 * n as int <= |frame|
    requires var h := hdrLen + 4 * n as int; Meets(frame, at, h, frame[at + h - 2], rest)
    ensures Meets(frame, at, hdrLen, n, [n] + rest)
    ensures Span([n] + rest) == 4 * n as int + Span(rest)
  {
    var h, ns := hdrLen + 4 * n as int, [n] + rest;
    assert ns[1..] == rest && ns[..0] == [];
    forall i | 0 <= i < |ns|
      ensures ns[i] != 0 && at + hdrLen + Span(ns[..i]) <= |frame| && LengthOctet(frame, at, hdrLen, n, ns, i) == ns[i]
    {
      if i > 0 {
        SpanStep(ns, i);
        hide Span;
        assert LengthOctet(frame, at, h, frame[at + h - 2], rest, i - 1) == rest[i - 1];
        SpanNone();
        assert rest[..0] == [];
      }
    }
  }

  lemma SpanNone()
    ensures Span([]) == 0
  {
  }

  /** The walk's result, given the length octets it meets: where they end, or nothing if that is outside. */
  lemma {:induction false} WalkIs(frame: Frame, at: nat, hdrLen: nat, first: U8, ns: seq<U8>)
    requires 2 <= hdrLen && at + hdrLen <= |frame| && Meets(frame, at, hdrLen, first, ns)
    ensures at + hdrLen + Span(ns) > |frame| ==> WalkExtensions(frame, at, hdrLen, first) == None
    ensures at + hdrLen + Span(ns) <= |frame| && (if ns == [] then first else frame[at + hdrLen + Span(ns) - 2]) == 0
            ==> WalkExtensions(frame, at, hdrLen, first) == Some(hdrLen + Span(ns))
    decreases |ns|
  {
    if ns != [] {
      assert ns[..0] == [];
      assert LengthOctet(frame, at, hdrLen, first, ns, 0) == ns[0];
      var h := hdrLen + 4 * ns[0] as int;
      if at + h <= |frame| {
        MeetsRest(frame, at, hdrLen, first, ns);
        WalkIs(frame, at, h, frame[at + h - 2], ns[1..]);
      }
    }
  }

  /** Conversely every walk meets such octets: it accepts at the zero after them, or they lead outside. */
  lemma {:induction false} WalkMeets(frame: Frame, at: nat, hdrLen: nat, first: U8) returns (ns: seq<U8>)
    requires 2 <= hdrLen && at + hdrLen <= |frame|
    ensures Meets(frame, at, hdrLen, first, ns)
    ensures at + hdrLen + Span(ns) > |frame|
         || (if ns == [] then first else frame[at + hdrLen + Span(ns) - 2]) == 0
    decreases |frame| - (at + hdrLen)
  {
    var h := hdrLen + 4 * first as int;
    if first == 0 {
      ns := [];
    } else if at + h > |frame| {
      ns := [first];
      assert ns[..0] == [] && Span(ns[1..]) == 0;
    } else {
      var rest := WalkMeets(frame, at, h, frame[at + h - 2]);
      ns := [first] + rest;
      MeetsAll(frame, at, hdrLen, first, rest);
    }
  }

  /**
   The length of an accepted header, from its octets. Without the extension flag it is 8, or 12 with S
   or PN. With it the length octets start at octet 8 whatever else is set, each extension moves by
   four octets a unit from 10 or 14, and the next length octet is the second last of what is behind.
   */
  lemma GtpuLenIs(frame: Frame, at: nat, ns: seq<U8>)
    requires at + 8 <= |frame| && frame[at] / 32 == 1 && frame[at] / 16 % 2 == 1
    ensures var e, opt := frame[at] / 4 % 2 == 1, frame[at] % 4 != 0;
      && (!e ==> var n := if opt then 12 else 8; GtpuLen(frame, at) == if at + n <= |frame| then Some(n) else None)
      && (e ==>
            var n := if opt then 14 else 10;
            && (at + n > |frame| ==> GtpuLen(frame, at) == None)
            && (at + n <= |frame| && Meets(frame, at, n, frame[at + 8], ns) ==>
                  && (at + n + Span(ns) > |frame| ==> GtpuLen(frame, at) == None)
                  && (at + n + Span(ns) <= |frame|
                      && frame[if ns == [] then at + 8 else at + n + Span(ns) - 2] == 0
                      ==> GtpuLen(frame, at) == Some(n + Span(ns)))))
  {
    hide WalkExtensions, Meets, Span;
    var n := if frame[at] % 4 != 0 then 14 else 10;
    if frame[at] / 4 % 2 == 1 && at + n <= |frame| && Meets(frame, at, n, frame[at + 8], ns) {
      WalkIs(frame, at, n, frame[at + 8], ns);
      SpanNone();
    }
  }

  /** Anything but version 1 with the GTP protocol type is refused, and so is a header cut short. */
  lemma GtpuLenRefuses(frame: Frame, at: nat)
    requires at + 8 > |frame| || frame[at] / 32 != 1 || frame[at] / 16 % 2 != 1
    ensures GtpuLen(frame, at) == None
  {
  }

  /** The outcome of the whole parse chain. */
  datatype Parsed =
    | Malformed
    | NotGtpu
    | Gtpu(ihl: nat, at: nat, hdrLen: nat)

  predicate IsGtpuPorts(src: U16, dst: U16) {
    dst == GTPU_PORT || src == GTPU_PORT
  }

  function Parse(frame: Frame): (p: Parsed)
    ensures p.Gtpu? ==>
              && 5 <= p.ihl < 16 && p.at == ETH_HLEN + 4 * p.ihl + UDP_HLEN
              && GtpuLen(frame, p.at) == Some(p.hdrLen)
  {
    if |frame| < ETH_HLEN then Malformed
    else if BE16(frame[12..14]) != ETH_P_IP then NotGtpu
    else if |frame| < ETH_HLEN + IP_HLEN then Malformed
    else
      var ihl := frame[ETH_HLEN] % 16;
      if ihl < 5 || ETH_HLEN + 4 * ihl > |frame| then Malformed
      else if frame[ETH_HLEN + 9] != IPPROTO_UDP then NotGtpu
      else
        var udp := ETH_HLEN + 4 * ihl;
        if udp + UDP_HLEN > |frame| then Malformed
        else if !IsGtpuPorts(BE16(frame[udp..udp + 2]), BE16(frame[udp + 2..udp + 4])) then NotGtpu
        else match GtpuLen(frame, udp + UDP_HLEN)
          case None => Malformed
          case Some(len) => Gtpu(ihl, udp + UDP_HLEN, len)
  }

  lemma FitsIn16(x: U16)
    ensures Wrap16(x) == x
  {
  }

  /** A `struct hdr_cursor` over one frame. Every parser returns -1 on a truncated header. */
  class HdrCursor {
    const frame: Frame
    var pos: nat

    constructor (frame: Frame)
      ensures this.frame == frame && pos == 0
    {
      this.frame := frame;
      pos := 0;
    }

    /** Returns the EtherType. */
    method ParseEthHdr() returns (r: int)
      modifies this
      ensures old(pos) + ETH_HLEN > |frame| ==> r == -1 && pos == old(pos)
      ensures old(pos) + ETH_HLEN <= |frame| ==>
                r == BE16(frame[old(pos) + 12..old(pos) + 14]) && pos == old(pos) + ETH_HLEN
    {
      if pos + ETH_HLEN > |frame| {
        return -1;
      }
      r := BE16(frame[pos + 12..pos + 14]);
      pos := pos + ETH_HLEN;
    }

    /** Returns the protocol; the header may carry options. */
    method ParseIpHdr() returns (r: int)
      modifies this
      ensures
        var p := old(pos);
        if p + IP_HLEN > |frame| || frame[p] % 16 < 5 || p + 4 * (frame[p] % 16) > |frame| then
          r == -1 && pos == p
        else
          r == frame[p + 9] && pos == p + 4 * (frame[p] % 16)
    {
      if pos + IP_HLEN > |frame| {
        return -1;
      }
      var hdrSize := frame[pos] % 16 * 4;
      if hdrSize < IP_HLEN {
        return -1;
      }
      if pos + hdrSize > |frame| {
        return -1;
      }
      r := frame[pos + 9];
      pos := pos + hdrSize;
    }

    method ParseUdpHdr() returns (r: int)
      modifies this
      ensures old(pos) + UDP_HLEN > |frame| ==> r == -1 && pos == old(pos)
      ensures old(pos) + UDP_HLEN <= |frame| ==> r == 0 && pos == old(pos) + UDP_HLEN
    {
      if pos + UDP_HLEN > |frame| {
        return -1;
      }
      pos := pos + UDP_HLEN;
      return 0;
    }

    /**
     Every read is inside the frame, and the 16-bit header length is the one computed without
     wrap-around.
     */
    method ParseGtpuHdr() returns (r: int, hdrLen: U16)
      modifies this
      ensures r == 0 || r == -1
      ensures r == 0 <==> GtpuLen(frame, old(pos)).Some?
      ensures r == 0 ==> GtpuLen(frame, old(pos)) == Some(hdrLen) && pos == old(pos) + hdrLen
      ensures r == -1 ==> pos == old(pos)
    {
      hide WalkExtensions;
      hdrLen := 0;
      if pos + GTPU_HEADER_LEN > |frame| {
        return -1, hdrLen;
      }
      var flags := frame[pos];
      if flags / 32 != 1 {
        return -1, hdrLen;
      }
      if flags / 16 % 2 != 1 {
        return -1, hdrLen;
      }
      hdrLen := GtpuHdrLen(flags);
      if pos + hdrLen > |frame| {
        return -1, hdrLen;
      }
      if HasExtension(flags) {
        var ok;
        ok, hdrLen := WalkExtensionHeaders(hdrLen, frame[pos + GTPU_HEADER_LEN]);
        if !ok {
          return -1, hdrLen;
        }
      }
      pos := pos + hdrLen;
      return 0, hdrLen;
    }

    /** The loop over the extension headers: every read is inside the frame and the length never wraps. */
    method WalkExtensionHeaders(base: U16, first: U8) returns (ok: bool, hdrLen: U16)
      requires 2 <= base && pos + base <= |frame|
      ensures ok <==> WalkExtensions(frame, pos, base, first).Some?
      ensures ok ==> WalkExtensions(frame, pos, base, first) == Some(hdrLen)
    {
      hide Wrap16;
      hdrLen := base;
      var extLen := first;
      while extLen != 0
        invariant 2 <= hdrLen && pos + hdrLen <= |frame|
        invariant WalkExtensions(frame, pos, hdrLen, extLen) == WalkExtensions(frame, pos, base, first)
        decreases |frame| - (pos + hdrLen), extLen
      {
        if pos + hdrLen + extLen as int * 4 > |frame| {
          return false, hdrLen;
        }
        FitsIn16(hdrLen + extLen as int * 4);
        hdrLen := Wrap16(hdrLen + extLen as int * 4);
        extLen := frame[pos + hdrLen - 2];
      }
      return true, hdrLen;
    }
  }

  /** The QFI of the first extension header when its type octet says PDU session, else 0. */
  function ExtractQfi(frame: Frame, at: nat): (qfi: U8)
    requires at + 8 <= |frame|
    ensures qfi < 64
  {
    if !HasExtension(frame[at]) then 0 else
    var ext := at + GTPU_HEADER_LEN + (if HasSequenceOrNPdu(frame[at]) then 4 else 0);
    if ext + 2 > |frame| then 0
    else if frame[ext + 1] != 0x85 then 0
    else if ext + 3 > |frame| then 0
    else frame[ext + 2] % 64
  }

  /** The QFI is the low six bits of the third octet from 8, or from 12 with S or PN, behind a type octet 0x85. */
  lemma ExtractQfiIs(frame: Frame, at: nat)
    requires at + 8 <= |frame|
    ensures var x := if frame[at] % 4 != 0 then at + 12 else at + 8;
      && (frame[at] / 4 % 2 == 1 && x + 3 <= |frame| && frame[x + 1] == 0x85 ==> ExtractQfi(frame, at) == frame[x + 2] % 64)
      && (frame[at] / 4 % 2 == 0 || x + 3 > |frame| || frame[x + 1] != 0x85 ==> ExtractQfi(frame, at) == 0)
  {
  }
}
