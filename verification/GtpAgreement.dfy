/**
 The same GTP-U header read by the data plane and by the control plane.
 */
module GtpAgreement {
  import opened Machine
  import K = KernelParse
  import G = GoGtp

  /** Without the extension flag both parsers accept the same packets and find the same length. */
  lemma AgreeWithoutExtensions(frame: K.Frame, at: nat)
    requires at + 8 <= |frame| && !K.HasExtension(frame[at])
    ensures G.Parse(frame[at..]).Ok? <==> K.GtpuLen(frame, at).Some?
    ensures K.GtpuLen(frame, at).Some? ==> K.GtpuLen(frame, at) == Some(G.Parse(frame[at..]).offset)
  {
    assert frame[at..][0] == frame[at];
  }

  /** The control plane finds a whole number of four-octet units. */
  lemma GoOffsetAligned(data: Bytes)
    requires G.Parse(data).Ok?
    ensures G.Parse(data).offset % 4 == 0
  {
    hide G.Parse;
    G.ParseLossless(data);
    var h := G.Parse(data).value;
    ChainAligned(h.extHeaders);
    assert |data[..G.Parse(data).offset]| == G.Parse(data).offset;
  }

  lemma {:induction false} ChainAligned(es: seq<G.ExtHeader>)
    requires G.WellFormedExts(es)
    ensures |G.ChainBytes(es)| % 4 == 0
    decreases |es|
  {
    if es == [] {
    } else {
      ChainAligned(es[1..]);
      assert |G.ChainBytes(es)| == |es[0].value| + 2 + |G.ChainBytes(es[1..])|;
    }
  }

  /**
   On a packet both accept, the two parsers find the same header length exactly when the
   extension flag is clear: with it set the data plane is always two octets off a multiple of four.
   */
  lemma LengthsAgreeIffNoExtension(frame: K.Frame, at: nat)
    requires at + 8 <= |frame|
    requires K.GtpuLen(frame, at).Some? && G.Parse(frame[at..]).Ok?
    ensures K.GtpuLen(frame, at).value == G.Parse(frame[at..]).offset <==> !K.HasExtension(frame[at])
  {
    if K.HasExtension(frame[at]) {
      hide G.Parse;
      GoOffsetAligned(frame[at..]);
    } else {
      AgreeWithoutExtensions(frame, at);
    }
  }

  /** What the control plane reports when no PDU session extension is present counts as QFI 0. */
  function GoQfi(h: G.Header): U8 {
    match G.QfiOf(h.extHeaders) case None => 0 case Some(q) => q
  }

  /**
   With the extension flag set along with S or PN, the data plane looks only at the octets where
   the first extension header would be. Its QFI equals the control plane's when that header is
   a PDU session container; otherwise it is 0, unless no extension was announced and the payload
   happens to look like one.
   */
  lemma QfiWithOptions(frame: K.Frame, at: nat)
    requires at + 8 <= |frame|
    requires K.HasExtension(frame[at]) && K.HasSequenceOrNPdu(frame[at])
    requires G.Parse(frame[at..]).Ok?
    ensures var h := G.Parse(frame[at..]).value; var qfi := K.ExtractQfi(frame, at);
      if h.extHeaders == [] then
        GoQfi(h) == 0 && qfi == (if |frame| > at + 14 && frame[at + 13] == 0x85 then frame[at + 14] % 64 else 0)
      else if h.extHeaders[0].extType == 0x85 then G.QfiOf(h.extHeaders) == Some(qfi)
      else qfi == 0 && GoQfi(h) == GoQfi(h.(extHeaders := h.extHeaders[1..]))
  {
    var data := frame[at..];
    assert data[0] == frame[at] && |data| >= 12;
    var h := G.Parse(data).value;
    if h.extHeaders != [] {
      var e := G.ExtAt(data, 12);
      assert h.extHeaders[0] == e;
      assert e.extType == data[13] == frame[at + 13];
      assert e.value[0] == data[14] == frame[at + 14];
    }
  }

  /** What the data plane takes for a QFI when only the extension flag is set. */
  function QfiFromSequence(frame: K.Frame, at: nat): U8
    requires at + 11 <= |frame|
  {
    if frame[at + 9] == 0x85 then frame[at + 10] % 64 else 0
  }

  /**
   With the extension flag alone the data plane looks for the extension header four octets too
   early: it takes the low octet of the sequence number for the type and the N-PDU number for the
   QFI. The two readings agree exactly when those two octets happen to spell the control plane's.
   */
  lemma QfiWithoutOptions(frame: K.Frame, at: nat)
    requires at + 8 <= |frame|
    requires K.HasExtension(frame[at]) && !K.HasSequenceOrNPdu(frame[at])
    requires G.Parse(frame[at..]).Ok?
    ensures var h := G.Parse(frame[at..]).value; var qfi := K.ExtractQfi(frame, at);
      && at + 12 <= |frame|
      && qfi == (if h.sequenceNum % 0x100 == 0x85 then h.nPduNum % 64 else 0)
      && qfi == QfiFromSequence(frame, at)
      && (qfi == GoQfi(h) <==>
            if frame[at + 9] == 0x85 then frame[at + 10] % 64 == GoQfi(h) else GoQfi(h) == 0)
  {
    var data := frame[at..];
    assert data[0] == frame[at] && G.HasOptions(data[0]);
    assert |data| >= 12 && data[9] == frame[at + 9] && data[10] == frame[at + 10];
    var h := G.Parse(data).value;
    hide G.ParseChain;
    assert h.sequenceNum == BE16(data[8..10]) && h.nPduNum == data[10];
    assert BE16(data[8..10]) % 0x100 == data[9];
  }

  /**
   A packet of that kind: QFI 9 and 16 octets of header by the control plane's reading, QFI 0 and
   10 octets by the data plane's.
   */
  lemma ExtensionFlagAloneDisagrees()
    ensures
      var p: Bytes := [0x34, 0xFF, 0, 8, 0, 0, 0, 1, 0, 0, 0, 0x85, 1, 0x85, 9, 0];
      && G.Parse(p).Ok? && GoQfi(G.Parse(p).value) == 9 && G.Parse(p).offset == 16
      && K.ExtractQfi(p, 0) == 0 && K.GtpuLen(p, 0) == Some(10)
  {
    var p: Bytes := [0x34, 0xFF, 0, 8, 0, 0, 0, 1, 0, 0, 0, 0x85, 1, 0x85, 9, 0];
    assert G.ParseChain(p, 16, 0) == G.Ok(G.Chain(0, []), 16);
    assert G.ExtAt(p, 12) == G.ExtHeader(0x85, 4, [9, 0]);
    assert [G.ExtAt(p, 12)] + [] == [G.ExtHeader(0x85, 4, [9, 0])];
    assert G.ParseChain(p, 12, 0x85) == G.Ok(G.Chain(0, [G.ExtHeader(0x85, 4, [9, 0])]), 16);
  }
}
