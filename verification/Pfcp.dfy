/**
 PFCP messages: the header, the scan over information elements, and the control plane's responses.
 */
module Pfcp {
  import opened Machine

  // ---------- Header ----------

  datatype Header = Header(
    version: U8, mpFlag: bool, sFlag: bool, messageType: U8, messageLength: U16, seid: U64, sequence: U32)

  datatype Error = HeaderTooShort | SeidTruncated | SequenceTruncated

  datatype Result<+T> = Ok(value: T, offset: nat) | Err(error: Error)

  function HeaderFlags(b: U8): (U8, bool, bool) {
    (b / 32, b / 16 % 2 == 1, b / 8 % 2 == 1)
  }

  /** The octets of a header with an optional SEID at position 4 and the sequence number after it. */
  function ParseHeader(data: Bytes): (r: Result<Header>)
    ensures r.Ok? ==> r.offset == (if r.value.sFlag then 16 else 8) <= |data| && r.value.sequence < 0x100_0000
    ensures r.Err? <==> |data| < 4 || |data| < (if data[0] / 8 % 2 == 1 then 16 else 8)
    ensures r.Err? ==> r.error == if |data| < 4 then HeaderTooShort
                                  else if data[0] / 8 % 2 == 1 && |data| < 12 then SeidTruncated else SequenceTruncated
  {
    if |data| < 4 then Err(HeaderTooShort) else
    var (version, mp, s) := HeaderFlags(data[0]);
    var at := if s then 12 else 4;
    if |data| < at then Err(SeidTruncated)
    else if |data| < at + 4 then Err(SequenceTruncated)
    else
      Ok(Header(version, mp, s, data[1], BE16(data[2..4]), if s then BE64(data[4..12]) else 0,
                BE32(data[at..at + 4]) / 0x100), at + 4)
  }

  /** The octets of a header; low are the three bits and spare the octet that parsing ignores. */
  function HeaderBytes(h: Header, low: U8, spare: U8): Bytes
    requires h.version < 8 && low < 8 && h.sequence < 0x100_0000
  {
    [h.version as int * 32 + (if h.mpFlag then 16 else 0) + (if h.sFlag then 8 else 0) + low, h.messageType]
    + PutBE16(h.messageLength)
    + (if h.sFlag then PutBE64(h.seid) else [])
    + PutBE32(h.sequence)[1..] + [spare]
  }

  /** A parsed header determines every consumed bit but the low three of octet 0 and the last octet. */
  lemma HeaderLossless(data: Bytes)
    requires ParseHeader(data).Ok?
    ensures var r := ParseHeader(data);
      data[..r.offset] == HeaderBytes(r.value, data[0] % 8, data[r.offset - 1])
  {
    hide BE16, BE32, BE64;
    var r := ParseHeader(data);
    var h, n := r.value, r.offset;
    var front, last := data[..n - 4], data[n - 4..n];
    assert (h.version, h.mpFlag, h.sFlag) == HeaderFlags(data[0]) && h.messageType == data[1];
    assert h.messageLength == BE16(data[2..4]) && h.sequence == BE32(last) / 0x100;
    assert h.sFlag ==> h.seid == BE64(data[4..12]);
    hide ParseHeader, HeaderFlags, PutBE16, PutBE32, PutBE64;
    FlagsOctet(data[0]);
    SequenceOctets(last);
    PutBE16Inverse(data[2..4]);
    assert front == [data[0], data[1]] + data[2..4] + data[4..n - 4];
    if h.sFlag {
      PutBE64Inverse(data[4..12]);
    } else {
      assert data[4..n - 4] == [];
    }
    assert data[..n] == front + last[..3] + [data[n - 1]];
  }

  lemma FlagsOctet(b: U8)
    ensures var (v, mp, s) := HeaderFlags(b);
      v as int * 32 + (if mp then 16 else 0) + (if s then 8 else 0) + b % 8 == b
  {
    assert b / 16 == 2 * (b / 32) + b / 16 % 2;
    assert b / 8 == 2 * (b / 16) + b / 8 % 2;
    assert b == 8 * (b / 8) + b % 8;
  }

  /** The sequence number is the first three of its four octets. */
  lemma SequenceOctets(b: Bytes)
    requires |b| == 4
    ensures PutBE32(BE32(b) / 0x100)[1..] == b[..3]
  {
    var x := BE32(b) / 0x100;
    assert x == b[0] as int * 0x1_0000 + b[1] as int * 0x100 + b[2] as int;
    assert x / 0x1_0000 == b[0] && x % 0x1_0000 == b[1] as int * 0x100 + b[2] as int;
  }

  // ---------- Information elements ----------

  datatype IE = IE(ieType: U16, length: U16, value: Bytes)

  /** An element as the scan produces it. */
  predicate WellFormed(ie: IE) {
    ie.length == |ie.value|
  }

  predicate AllWellFormed(ies: seq<IE>) {
    forall i :: 0 <= i < |ies| ==> WellFormed(ies[i])
  }

  function Encode(ie: IE): Bytes {
    PutBE16(ie.ieType) + PutBE16(ie.length) + ie.value
  }

  function EncodeAll(ies: seq<IE>): Bytes {
    if ies == [] then [] else Encode(ies[0]) + EncodeAll(ies[1..])
  }

  /** Fewer than four octets, or a first element that declares more than there is. */
  predicate NoElement(b: Bytes) {
    |b| < 4 || |b| < 4 + BE16(b[2..4])
  }

  function First(b: Bytes): (ie: IE)
    requires !NoElement(b)
    ensures WellFormed(ie)
  {
    var n := BE16(b[2..4]);
    IE(BE16(b[..2]), n, b[4..4 + n])
  }

  function Rest(b: Bytes): Bytes
    requires !NoElement(b)
  {
    b[4 + BE16(b[2..4])..]
  }

  /** The elements a byte string starts with, without regard to any integer width. */
  function Elements(b: Bytes): (ies: seq<IE>)
    ensures AllWellFormed(ies)
    decreases |b|
  {
    if NoElement(b) then [] else [First(b)] + Elements(Rest(b))
  }

  function Leftover(b: Bytes): Bytes
    decreases |b|
  {
    if NoElement(b) then b else Leftover(Rest(b))
  }

  /** What the scan yields; a length of 65532 or more makes the 16-bit sum 4 + length wrap and the slice panic. */
  datatype Scan = Scanned(ies: seq<IE>, leftover: Bytes) | Panicked

  predicate Wraps(ie: IE) {
    4 + ie.length >= TWO16
  }

  function ScanOf(b: Bytes): Scan {
    if exists i :: 0 <= i < |Elements(b)| && Wraps(Elements(b)[i]) then Panicked
    else Scanned(Elements(b), Leftover(b))
  }

  lemma ElementsStep(b: Bytes, done: seq<IE>)
    requires !NoElement(b)
    ensures done + Elements(b) == (done + [First(b)]) + Elements(Rest(b))
    ensures |done| < |done + Elements(b)| && (done + Elements(b))[|done|] == First(b)
    ensures Leftover(b) == Leftover(Rest(b))
  {
    hide First, Rest, NoElement;
    assert done + ([First(b)] + Elements(Rest(b))) == (done + [First(b)]) + Elements(Rest(b));
  }

  lemma ElementsEnd(b: Bytes, done: seq<IE>)
    requires NoElement(b)
    ensures done + Elements(b) == done && Leftover(b) == b
  {
  }

  /** The loop of ParseMessage over the octets after the header, with its 16-bit arithmetic. */
  method ScanIEs(data: Bytes) returns (scan: Scan)
    ensures scan == ScanOf(data)
  {
    hide BE16, Elements, Leftover;
    var ies: seq<IE> := [];
    var remaining := data;
    while |remaining| >= 4
      invariant Elements(data) == ies + Elements(remaining)
      invariant Leftover(data) == Leftover(remaining)
      invariant forall i :: 0 <= i < |ies| ==> !Wraps(ies[i])
      decreases |remaining|
    {
      var ieType := BE16(remaining[..2]);
      var ieLen := BE16(remaining[2..4]);
      if |remaining| < ieLen as int + 4 {
        break;
      }
      ElementsStep(remaining, ies);
      var end := Wrap16(4 + ieLen as int);
      if end < 4 {
        assert Wraps(Elements(data)[|ies|]);
        return Panicked;
      }
      ies := ies + [IE(ieType, ieLen, remaining[4..end])];
      remaining := remaining[end..];
    }
    ElementsEnd(remaining, ies);
    return Scanned(ies, remaining);
  }

  lemma FirstThenRest(b: Bytes)
    requires !NoElement(b)
    ensures Encode(First(b)) + Rest(b) == b && |Rest(b)| < |b|
  {
    hide BE16, PutBE16;
    PutBE16Inverse(b[..2]);
    PutBE16Inverse(b[2..4]);
    var n := BE16(b[2..4]);
    assert b == b[..2] + b[2..4] + b[4..4 + n] + b[4 + n..];
  }

  /** The scan is exact: elements re-encoded plus leftover are the input, and the leftover starts no element. */
  lemma {:induction false} ScanExact(b: Bytes)
    ensures EncodeAll(Elements(b)) + Leftover(b) == b
    ensures NoElement(Leftover(b))
    decreases |b|
  {
    hide First, Rest, Encode, NoElement;
    if NoElement(b) {
    } else {
      FirstThenRest(b);
      ScanExact(Rest(b));
      assert Elements(b)[1..] == Elements(Rest(b));
      assert Encode(First(b)) + (EncodeAll(Elements(Rest(b))) + Leftover(Rest(b))) == b;
    }
  }

  /** The converse: any list of elements, encoded and followed by no further element, is scanned back. */
  lemma {:induction false} EncodeScan(ies: seq<IE>, tail: Bytes)
    requires AllWellFormed(ies) && NoElement(tail)
    ensures Elements(EncodeAll(ies) + tail) == ies && Leftover(EncodeAll(ies) + tail) == tail
    decreases |ies|
  {
    var b := EncodeAll(ies) + tail;
    if ies == [] {
      assert b == tail;
    } else {
      hide PutBE16, BE16;
      var more := EncodeAll(ies[1..]) + tail;
      assert b == PutBE16(ies[0].ieType) + PutBE16(ies[0].length) + ies[0].value + more;
      assert b[..2] == PutBE16(ies[0].ieType) && b[2..4] == PutBE16(ies[0].length);
      assert b[4..4 + ies[0].length] == ies[0].value && b[4 + ies[0].length..] == more;
      assert First(b) == ies[0] && Rest(b) == more;
      EncodeScan(ies[1..], tail);
    }
  }

  lemma {:induction false} ElementsFit(b: Bytes)
    ensures forall i :: 0 <= i < |Elements(b)| ==> 4 + Elements(b)[i].length <= |b|
    decreases |b|
  {
    if NoElement(b) {
    } else {
      ElementsFit(Rest(b));
    }
  }

  /** The scan panics exactly when it reaches a complete element of 65532 octets or more: never within 65535 octets. */
  lemma ScanNeverPanics(b: Bytes)
    ensures ScanOf(b) == Panicked <==> exists i :: 0 <= i < |Elements(b)| && Elements(b)[i].length >= 65532
    ensures |b| <= 65535 ==> ScanOf(b) == Scanned(Elements(b), Leftover(b))
  {
    ElementsFit(b);
    hide Elements, Leftover;
    forall i | 0 <= i < |Elements(b)|
      ensures Wraps(Elements(b)[i]) <==> Elements(b)[i].length >= 65532
    {
    }
  }

  /** Beyond that size the guard does not help: a single element of 65532 octets panics. */
  lemma OversizedElementPanics(value: Bytes, t: U16)
    requires |value| == 65532
    ensures ScanOf(Encode(IE(t, 65532, value))) == Panicked
  {
    var ie := IE(t, 65532, value);
    EncodeScan([ie], []);
    assert EncodeAll([ie]) + [] == Encode(ie);
    assert Wraps(Elements(Encode(ie))[0]);
  }

  // ---------- Messages ----------

  datatype Message = Message(header: Header, ies: seq<IE>)

  datatype Outcome = Parsed(message: Message) | Rejected(error: Error) | MessagePanic

  method ParseMessage(data: Bytes) returns (r: Outcome)
    ensures ParseHeader(data).Err? ==> r == Rejected(ParseHeader(data).error)
    ensures ParseHeader(data).Ok? ==>
      match ScanOf(data[ParseHeader(data).offset..])
      case Scanned(ies, _) => r == Parsed(Message(ParseHeader(data).value, ies))
      case Panicked => r == MessagePanic
  {
    var h := ParseHeader(data);
    if h.Err? {
      return Rejected(h.error);
    }
    var scan := ScanIEs(data[h.offset..]);
    match scan {
      case Panicked => return MessagePanic;
      case Scanned(ies, _) => return Parsed(Message(h.value, ies));
    }
  }

  // ---------- Responses ----------

  /** Writes b over the octets of buf from position at on. */
  function Overwrite(buf: Bytes, at: nat, b: Bytes): Bytes
    requires at + |b| <= |buf|
  {
    buf[..at] + b + buf[at + |b|..]
  }

  method Put(buf: array<U8>, at: nat, b: Bytes)
    requires at + |b| <= buf.Length
    modifies buf
    ensures buf[..] == Overwrite(old(buf[..]), at, b)
  {
    for i := 0 to |b|
      invariant forall k :: 0 <= k < buf.Length ==>
                  buf[k] == if at <= k < at + i then b[k - at] else old(buf[k])
    {
      buf[at + i] := b[i];
    }
  }

  /** The octets of an association setup response. */
  function AssociationSetupResponse(seid: U64, sequence: U32, cause: U8): Bytes {
    [0x28, 6] + PutBE16(12) + PutBE64(seid) + PutBE32(Wrap32(sequence * 0x100))[..3] + [cause]
  }

  function SessionEstablishmentResponse(seid: U64, sequence: U32): Bytes {
    [0x38, 51] + PutBE16(16) + PutBE64(seid) + PutBE32(Wrap32(sequence * 0x100)) + [0, 19, 0, 1]
  }

  method BuildAssociationSetupResponse(seid: U64, sequence: U32, cause: U8) returns (hdr: array<U8>)
    ensures fresh(hdr) && hdr[..] == AssociationSetupResponse(seid, sequence, cause)
  {
    hide PutBE16, PutBE32, PutBE64, Wrap32;
    hdr := new U8[16](_ => 0);
    hdr[0] := 0x28;
    hdr[1] := 6;
    Put(hdr, 2, PutBE16(8 + 4));
    Put(hdr, 4, PutBE64(seid));
    Put(hdr, 12, PutBE32(Wrap32(sequence * 0x100)));
    hdr[16 - 1] := cause;
  }

  method BuildSessionEstablishmentResponse(seid: U64, sequence: U32, cause: U8) returns (buf: array<U8>)
    ensures fresh(buf) && buf[..] == SessionEstablishmentResponse(seid, sequence)
  {
    hide PutBE16, PutBE32, PutBE64, Wrap32, Overwrite;
    buf := new U8[20](_ => 0);
    buf[0] := 0x38;
    buf[1] := 51;
    ghost var start := buf[..];
    Put(buf, 2, PutBE16(8 + 8));
    Put(buf, 4, PutBE64(seid));
    Put(buf, 12, PutBE32(Wrap32(sequence * 0x100)));
    ThreePuts(start, PutBE16(16), PutBE64(seid), PutBE32(Wrap32(sequence * 0x100)));
    ghost var header := buf[..16];
    assert header == start[..2] + PutBE16(16) + PutBE64(seid) + PutBE32(Wrap32(sequence * 0x100));
    buf[16] := 0x00;
    buf[17] := 19;
    buf[18] := 0x00;
    buf[19] := 0x01;
    assert buf[..] == header + [0, 19, 0, 1];
  }

  lemma ThreePuts(buf: Bytes, a: Bytes, b: Bytes, c: Bytes)
    requires |buf| >= 16 && |a| == 2 && |b| == 8 && |c| == 4
    ensures Overwrite(Overwrite(Overwrite(buf, 2, a), 4, b), 12, c) == buf[..2] + a + b + c + buf[16..]
  {
  }

  lemma ShiftedSequence(x: U32)
    ensures PutBE32(Wrap32(x * 0x100))[3] == 0
    ensures Wrap32(x * 0x100) / 0x100 == x % 0x100_0000
  {
    assert Wrap32(x * 0x100) == x % 0x100_0000 * 0x100;
    LastOctetZero(x % 0x100_0000);
  }

  lemma LastOctetZero(y: int)
    requires 0 <= y < 0x100_0000
    ensures PutBE32(y * 0x100)[3] == 0
  {
    assert y * 0x100 % 0x1_0000 % 0x100 == 0;
  }

  lemma HighOctets(b: Bytes)
    requires |b| == 4
    ensures BE32(b) / 0x100 == BE32(b[3 := 0]) / 0x100
  {
  }

  /**
   An association response parses back to its SEID and to the low 24 bits of its sequence number,
   with a length field that counts the octets after the first four. It carries no element: the
   cause sits in the spare octet after the sequence number.
   */
  lemma AssociationResponseParsesBack(seid: U64, sequence: U32, cause: U8)
    ensures var a := AssociationSetupResponse(seid, sequence, cause);
      && ParseHeader(a) == Ok(Header(1, false, true, 6, |a| - 4, seid, sequence % 0x100_0000), 16)
      && Elements(a[16..]) == [] && a[15] == cause
  {
    var s := PutBE32(Wrap32(sequence * 0x100));
    var a := AssociationSetupResponse(seid, sequence, cause);
    ShiftedSequence(sequence);
    HighOctets(a[12..16]);
    assert a[12..16][3 := 0] == s;
    hide PutBE32, PutBE64, BE32, BE64, Wrap32;
    assert a[2..4] == PutBE16(12) && a[4..12] == PutBE64(seid);
  }

  /**
   So does a session establishment response, whatever cause was asked for; it announces a
   one-octet element of type 19 that it does not contain, and the scan finds none.
   */
  lemma SessionResponseParsesBack(seid: U64, sequence: U32)
    ensures var e := SessionEstablishmentResponse(seid, sequence);
      && ParseHeader(e) == Ok(Header(1, true, true, 51, |e| - 4, seid, sequence % 0x100_0000), 16)
      && Elements(e[16..]) == [] && Leftover(e[16..]) == PutBE16(19) + PutBE16(1)
  {
    var s := PutBE32(Wrap32(sequence * 0x100));
    var e := SessionEstablishmentResponse(seid, sequence);
    ShiftedSequence(sequence);
    assert e[16..] == [0, 19, 0, 1] && e[16..][2..4] == [0, 1];
    assert NoElement(e[16..]);
    hide PutBE32, PutBE64, BE32, BE64, Wrap32;
    assert e[2..4] == PutBE16(16) && e[4..12] == PutBE64(seid) && e[12..16] == s;
  }
}
