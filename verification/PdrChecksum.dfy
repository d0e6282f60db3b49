/**
 The integrity checksum of a PDR entry. The kernel sums the 32-bit words of the packed
 structure; the control plane sums the fields. The two agree only on some entries.
 */
module PdrChecksum {
  import opened Machine

  const PDR_MAGIC: U32 := 0x5044_5255

  type Mac = m: Bytes | |m| == 6 witness [0, 0, 0, 0, 0, 0]

  /** The value of a `struct pdr_value_snapshot`. */
  datatype Snapshot = Snapshot(
    magic: U32, version: U32, dstMac: Mac, ifindex: U32, qfi: U8, action: U8, sdfFilter: U32, checksum: U32)

  function LE16(lo: U8, hi: U8): U16 {
    lo as int + hi as int * 0x100
  }

  /** Two little-endian halves of a word. */
  function Word(lo: U16, hi: U16): U32 {
    lo as int + hi as int * 0x1_0000
  }

  function Low(x: U32): U16 { x % 0x1_0000 }

  function High(x: U32): U16 { x / 0x1_0000 }

  /**
   The structure as the kernel's checksum reads it: seven little-endian words. The six MAC bytes
   push ifindex, qfi and action half a word out of step.
   */
  function Words(s: Snapshot): (w: seq<U32>)
    ensures |w| == 7
  {
    [s.magic,
     s.version,
     Word(LE16(s.dstMac[0], s.dstMac[1]), LE16(s.dstMac[2], s.dstMac[3])),
     Word(LE16(s.dstMac[4], s.dstMac[5]), Low(s.ifindex)),
     Word(High(s.ifindex), LE16(s.qfi, s.action)),
     s.sdfFilter,
     s.checksum]
  }

  lemma LE16Injective(a: U8, b: U8, c: U8, d: U8)
    requires LE16(a, b) == LE16(c, d)
    ensures a == c && b == d
  {
  }

  lemma HalvesInjective(x: U32, y: U32)
    requires Low(x) == Low(y) && High(x) == High(y)
    ensures x == y
  {
  }

  /** No two snapshots have the same words. */
  lemma WordsInjective(s: Snapshot, t: Snapshot)
    requires Words(s) == Words(t)
    ensures s == t
  {
    hide LE16, Word, Low, High;
    var v, w := Words(s), Words(t);
    assert v[0] == w[0] && v[1] == w[1] && v[2] == w[2] && v[3] == w[3] && v[4] == w[4] && v[5] == w[5] && v[6] == w[6];
    hide Words;
    var m, n := s.dstMac, t.dstMac;
    WordInjective(LE16(m[0], m[1]), LE16(m[2], m[3]), LE16(n[0], n[1]), LE16(n[2], n[3]));
    WordInjective(LE16(m[4], m[5]), Low(s.ifindex), LE16(n[4], n[5]), Low(t.ifindex));
    WordInjective(High(s.ifindex), LE16(s.qfi, s.action), High(t.ifindex), LE16(t.qfi, t.action));
    LE16Injective(m[0], m[1], n[0], n[1]);
    LE16Injective(m[2], m[3], n[2], n[3]);
    LE16Injective(m[4], m[5], n[4], n[5]);
    LE16Injective(s.qfi, s.action, t.qfi, t.action);
    HalvesInjective(s.ifindex, t.ifindex);
    assert m == n;
  }

  lemma WordInjective(a: U16, b: U16, c: U16, d: U16)
    requires Word(a, b) == Word(c, d)
    ensures a == c && b == d
  {
  }

  /** The packed structure, octet by octet, least significant first. */
  function Packed(s: Snapshot): (b: Bytes)
    ensures |b| == 28
  {
    Octets(s.magic) + Octets(s.version) + s.dstMac + Octets(s.ifindex) + [s.qfi, s.action]
    + Octets(s.sdfFilter) + Octets(s.checksum)
  }

  function Octets(x: U32): (b: Bytes)
    ensures |b| == 4
    ensures x == b[0] as int + 0x100 * b[1] as int + 0x1_0000 * b[2] as int + 0x100_0000 * b[3] as int
  {
    var lo, hi := x % 0x1_0000, x / 0x1_0000;
    [lo % 0x100, lo / 0x100, hi % 0x100, hi / 0x100]
  }

  /** The i-th word is the i-th group of four octets. */
  lemma WordsOfPacked(s: Snapshot, i: nat)
    requires i < 7
    ensures var b := Packed(s);
      Words(s)[i] == b[4 * i] as int + 0x100 * b[4 * i + 1] as int + 0x1_0000 * b[4 * i + 2] as int
                     + 0x100_0000 * b[4 * i + 3] as int
  {
    var b, m, f := Packed(s), s.dstMac, Octets(s.ifindex);
    PackedAre(s);
    hide *;
    WordsAre(s, f);
    if i < 2 {
      assert b[..4][0] == b[0] && b[4..8][0] == b[4];
    } else if i > 4 {
      assert b[20..24][0] == b[20] && b[24..][0] == b[24];
    } else if i == 2 {
      WordOctets(m[0], m[1], m[2], m[3]);
    } else if i == 3 {
      WordOctets(m[4], m[5], f[0], f[1]);
    } else if i == 4 {
      WordOctets(f[2], f[3], s.qfi, s.action);
    }
  }

  lemma WordsAre(s: Snapshot, f: Bytes)
    requires f == Octets(s.ifindex)
    ensures var w, m := Words(s), s.dstMac;
      && w[0] == s.magic && w[1] == s.version && w[5] == s.sdfFilter && w[6] == s.checksum
      && w[2] == Word(LE16(m[0], m[1]), LE16(m[2], m[3]))
      && w[3] == Word(LE16(m[4], m[5]), LE16(f[0], f[1]))
      && w[4] == Word(LE16(f[2], f[3]), LE16(s.qfi, s.action))
  {
    hide Octets, Word, LE16, Low, High;
    HalvesOf(s.ifindex, f);
  }

  lemma PackedAre(s: Snapshot)
    ensures var b, v, f, d := Packed(s), Octets(s.version), Octets(s.ifindex), Octets(s.sdfFilter);
      && b[..4] == Octets(s.magic) && b[4..8] == v && b[8..14] == s.dstMac && b[14..18] == f
      && b[18..20] == [s.qfi, s.action] && b[20..24] == d && b[24..] == Octets(s.checksum)
  {
    hide Octets;
  }

  lemma WordOctets(a: U8, b: U8, c: U8, d: U8)
    ensures Word(LE16(a, b), LE16(c, d)) == a as int + 0x100 * b as int + 0x1_0000 * c as int + 0x100_0000 * d as int
  {
  }

  lemma HalvesOf(x: U32, b: Bytes)
    requires |b| == 4
    requires x == b[0] as int + 0x100 * b[1] as int + 0x1_0000 * b[2] as int + 0x100_0000 * b[3] as int
    ensures Low(x) == LE16(b[0], b[1]) && High(x) == LE16(b[2], b[3])
  {
  }

  function SumOf(w: seq<int>): int {
    if w == [] then 0 else SumOf(w[..|w| - 1]) + w[|w| - 1]
  }

  function Complement(x: U32): U32 {
    0xFFFF_FFFF - x
  }

  function KernelChecksum(s: Snapshot): U32 {
    Complement(Wrap32(SumOf(Words(s)[..6])))
  }

  lemma WrapZero()
    ensures Wrap32(0) == 0
  {
  }

  /** pdr_calc_checksum: a running 32-bit sum over every word but the checksum itself. */
  method CalcChecksum(s: Snapshot) returns (checksum: U32)
    ensures checksum == KernelChecksum(s)
  {
    hide Wrap32, Words;
    var data := Words(s);
    var sum: U32 := 0;
    WrapZero();
    for i := 0 to 6
      invariant sum == Wrap32(SumOf(data[..i]))
    {
      assert data[..i + 1][..i] == data[..i];
      WrapAdd32(SumOf(data[..i]), data[i]);
      sum := Wrap32(sum + data[i]);
    }
    return Complement(sum);
  }

  /** Sum and checksum are complements: together with the six words it makes 2^32 - 1, mod 2^32. */
  lemma ChecksumComplements(s: Snapshot)
    ensures var w: seq<int> := Words(s);
      (w[0] + w[1] + w[2] + w[3] + w[4] + w[5] + KernelChecksum(s)) % 0x1_0000_0000 == 0xFFFF_FFFF
  {
    var w: seq<int> := Words(s);
    SumOfSix(w);
    hide Words, SumOf;
    ComplementSum(SumOf(w[..6]));
  }

  lemma ComplementSum(x: int)
    ensures (x + Complement(Wrap32(x))) % 0x1_0000_0000 == 0xFFFF_FFFF
  {
  }

  predicate Verifies(s: Snapshot) {
    s.magic == PDR_MAGIC && KernelChecksum(s) == s.checksum
  }

  method VerifyIntegrity(s: Snapshot) returns (ok: bool)
    ensures ok == Verifies(s)
  {
    if s.magic != PDR_MAGIC {
      return false;
    }
    var calculated := CalcChecksum(s);
    return calculated == s.checksum;
  }

  /** A `struct pdr_value`, without its lock and reserved word. */
  class PdrValue {
    var magic: U32
    var version: U32
    var dstMac: Mac
    var ifindex: U32
    var qfi: U8
    var action: U8
    var sdfFilter: U32
    var checksum: U32

    function Value(): Snapshot
      reads this
    {
      Snapshot(magic, version, dstMac, ifindex, qfi, action, sdfFilter, checksum)
    }

    /** Whatever the entry held, it verifies afterwards. */
    method InitChecksum()
      modifies this
      ensures Verifies(Value())
      ensures Value() == old(Value()).(magic := PDR_MAGIC, version := 1, checksum := checksum)
    {
      magic := PDR_MAGIC;
      version := 1;
      var snap := Value().(checksum := 0);
      var c := CalcChecksum(snap);
      SameSum(snap, snap.(checksum := c));
      checksum := c;
    }

    /** The magic is not repaired: the entry verifies afterwards exactly when it was already there. */
    method UpdateChecksum()
      modifies this
      ensures Verifies(Value()) <==> old(magic) == PDR_MAGIC
      ensures Value() == old(Value()).(version := Wrap32(old(version) + 1), checksum := checksum)
    {
      version := Wrap32(version + 1);
      var snap := Value().(checksum := 0);
      var c := CalcChecksum(snap);
      SameSum(snap, snap.(checksum := c));
      checksum := c;
    }
  }

  lemma SameSum(s: Snapshot, t: Snapshot)
    requires t == s.(checksum := t.checksum)
    ensures KernelChecksum(s) == KernelChecksum(t)
  {
    assert Words(s)[..6] == Words(t)[..6];
  }

  // ---------- What the check detects ----------

  lemma SumOfSix(w: seq<int>)
    requires |w| == 7
    ensures SumOf(w[..6]) == w[0] + w[1] + w[2] + w[3] + w[4] + w[5]
  {
    var v := w[..6];
    assert v[..5][..4] == v[..4] && v[..4][..3] == v[..3] && v[..3][..2] == v[..2] && v[..2][..1] == v[..1];
    assert v[..1][..0] == [];
    assert SumOf(v[..1]) == v[0];
    assert SumOf(v[..2]) == v[0] + v[1];
    assert SumOf(v[..3]) == v[0] + v[1] + v[2];
    assert SumOf(v[..4]) == v[0] + v[1] + v[2] + v[3];
    assert SumOf(v[..5]) == v[0] + v[1] + v[2] + v[3] + v[4];
  }

  /** Any change confined to one 32-bit word of a valid snapshot, the checksum included, is detected. */
  lemma SingleWordChangeDetected(s: Snapshot, t: Snapshot, k: nat)
    requires Verifies(s) && k < 7 && Words(s)[k] != Words(t)[k]
    requires forall i :: 0 <= i < 7 && i != k ==> Words(s)[i] == Words(t)[i]
    ensures !Verifies(t)
  {
    hide SumOf;
    var v, w := Words(s), Words(t);
    assert v[6] == s.checksum && w[6] == t.checksum;
    hide Words;
    if k == 6 {
      assert v[..6] == w[..6];
    } else if Verifies(t) {
      OneWordMovesSum(v, w, k);
      CongruentIsEqual(SumOf(v[..6]), SumOf(w[..6]) - SumOf(v[..6]));
    }
  }

  lemma OneWordMovesSum(v: seq<int>, w: seq<int>, k: nat)
    requires |v| == |w| == 7 && k < 6
    requires forall i :: 0 <= i < 7 && i != k ==> v[i] == w[i]
    ensures SumOf(w[..6]) - SumOf(v[..6]) == w[k] - v[k]
  {
    hide SumOf;
    SumOfSix(v);
    SumOfSix(w);
  }

  lemma CongruentIsEqual(x: int, d: int)
    requires -TWO32 < d < TWO32 && Wrap32(x) == Wrap32(x + d)
    ensures d == 0
  {
  }

  // ---------- The control plane's checksum ----------

  function ShiftedByte(b: U8, i: nat): U32
    requires i < 6
  {
    b as int * (match i % 4 case 0 => 1 case 1 => 0x100 case 2 => 0x1_0000 case _ => 0x100_0000)
  }

  function MacSum(mac: Mac, n: nat): nat
    requires n <= 6
  {
    if n == 0 then 0 else MacSum(mac, n - 1) + ShiftedByte(mac[n - 1], n - 1)
  }

  function GoChecksum(s: Snapshot): U32 {
    Complement(Wrap32(s.magic + s.version + MacSum(s.dstMac, 6) + s.ifindex + s.qfi + s.action + s.sdfFilter))
  }

  /** calcPDRChecksum: every addition wraps at 32 bits. */
  method CalcPdrChecksum(s: Snapshot) returns (checksum: U32)
    ensures checksum == GoChecksum(s)
  {
    hide Wrap32, ShiftedByte;
    var sum: U32 := 0;
    sum := Wrap32(sum + s.magic);
    WrapAdd32(s.magic, s.version);
    sum := Wrap32(sum + s.version);
    for i := 0 to 6
      invariant sum == Wrap32(s.magic + s.version + MacSum(s.dstMac, i))
    {
      WrapAdd32(s.magic + s.version + MacSum(s.dstMac, i), ShiftedByte(s.dstMac[i], i));
      sum := Wrap32(sum + ShiftedByte(s.dstMac[i], i));
    }
    ghost var total := s.magic + s.version + MacSum(s.dstMac, 6);
    WrapAdd32(total, s.ifindex);
    sum := Wrap32(sum + s.ifindex);
    WrapAdd32(total + s.ifindex, s.qfi);
    sum := Wrap32(sum + s.qfi);
    WrapAdd32(total + s.ifindex + s.qfi, s.action);
    sum := Wrap32(sum + s.action);
    WrapAdd32(total + s.ifindex + s.qfi + s.action, s.sdfFilter);
    sum := Wrap32(sum + s.sdfFilter);
    return Complement(sum);
  }

  /** The control plane's checksum complements the sum of the fields, the MAC's octets shifted by their position mod 4. */
  lemma GoChecksumComplements(s: Snapshot)
    ensures var m: seq<int> := s.dstMac;
      var sum := s.magic + s.version + s.ifindex + s.qfi + s.action + s.sdfFilter
                 + m[0] + 0x100 * m[1] + 0x1_0000 * m[2] + 0x100_0000 * m[3] + m[4] + 0x100 * m[5];
      (sum + GoChecksum(s)) % 0x1_0000_0000 == 0xFFFF_FFFF
  {
    MacSumIs(s.dstMac);
    hide MacSum, Complement, Wrap32;
    ComplementSum(s.magic + s.version + MacSum(s.dstMac, 6) + s.ifindex + s.qfi + s.action + s.sdfFilter);
  }

  lemma MacSumIs(mac: Mac)
    ensures var m: seq<int> := mac;
      MacSum(mac, 6) == m[0] + 0x100 * m[1] + 0x1_0000 * m[2] + 0x100_0000 * m[3] + m[4] + 0x100 * m[5]
  {
    var m: seq<int> := mac;
    assert MacSum(mac, 1) == m[0];
    assert MacSum(mac, 2) == m[0] + 0x100 * m[1];
    assert MacSum(mac, 3) == m[0] + 0x100 * m[1] + 0x1_0000 * m[2];
    assert MacSum(mac, 4) == m[0] + 0x100 * m[1] + 0x1_0000 * m[2] + 0x100_0000 * m[3];
    assert MacSum(mac, 5) == MacSum(mac, 4) + m[4];
  }

  /** The kernel's sum minus the control plane's, as integers. */
  function Disagreement(s: Snapshot): int {
    0xFFFF * (Low(s.ifindex) - High(s.ifindex) + s.qfi) + 0xFF_FFFF * s.action
  }

  lemma SumsDiffer(s: Snapshot)
    ensures SumOf(Words(s)[..6])
            == s.magic + s.version + MacSum(s.dstMac, 6) + s.ifindex + s.qfi + s.action + s.sdfFilter
               + Disagreement(s)
  {
    SumOfSix(Words(s));
    MacSumIs(s.dstMac);
    assert s.ifindex == Low(s.ifindex) + 0x1_0000 * High(s.ifindex);
  }

  /** The linear form is a multiple of 2^32 only when both of its parts vanish. */
  lemma DisagreementVanishes(s: Snapshot)
    ensures Wrap32(Disagreement(s)) == 0 <==> s.action == 0 && Low(s.ifindex) + s.qfi == High(s.ifindex)
  {
    var d, a := Low(s.ifindex) - High(s.ifindex) + s.qfi, s.action as int;
    if Wrap32(Disagreement(s)) == 0 {
      var k := Disagreement(s) / TWO32;
      assert 0xFFFF * d + 0xFF_FFFF * a == TWO32 * k;
      assert -2 < k < 3;
      // 2^24 - 1 leaves 255 and 2^32 leaves 1 when divided by 2^16 - 1.
      assert k - 255 * a == 0xFFFF * (d + 256 * a - 0x1_0001 * k);
    }
  }

  /**
   An entry written by the control plane passes the kernel's integrity check exactly when it
   forwards (action 0) and the low half of its interface index plus its QFI equals the high half.
   */
  lemma GoChecksumPassesIff(s: Snapshot)
    requires s.magic == PDR_MAGIC && s.checksum == GoChecksum(s)
    ensures Verifies(s) <==> Wrap32(Disagreement(s)) == 0
    ensures Verifies(s) <==> s.action == 0 && Low(s.ifindex) + s.qfi == High(s.ifindex)
  {
    SumsDiffer(s);
    DisagreementVanishes(s);
    CongruentIff(SumOf(Words(s)[..6]), Disagreement(s));
  }

  lemma CongruentIff(x: int, d: int)
    ensures Wrap32(x) == Wrap32(x - d) <==> Wrap32(d) == 0
  {
  }
}
