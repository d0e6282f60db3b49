/**
 The control plane's name for a QoS flow: TEID and QFI in decimal with a colon between them.
 */
module FlowNames {
  import opened Machine

  function Digit(d: int): char
    requires 0 <= d < 10
  {
    '0' + d as char
  }

  /** The %d format of a non-negative number. */
  function Decimal(n: nat): (s: string)
    ensures |s| > 0
    ensures ':' !in s
  {
    if n < 10 then [Digit(n)] else Decimal(n / 10) + [Digit(n % 10)]
  }

  /** The number that decimal digits denote. */
  function Denoted(s: string): int {
    if s == "" then 0 else 10 * Denoted(s[..|s| - 1]) + (s[|s| - 1] as int - '0' as int)
  }

  /** The digits denote the number, and only 0 starts with the digit 0. */
  lemma {:induction false} DecimalReads(n: nat)
    ensures Denoted(Decimal(n)) == n
    ensures forall c :: c in Decimal(n) ==> '0' <= c <= '9'
    ensures Decimal(n)[0] == '0' ==> n == 0
  {
    var s := Decimal(n);
    if n >= 10 {
      DecimalReads(n / 10);
      assert s[..|s| - 1] == Decimal(n / 10) && s[0] == Decimal(n / 10)[0];
    } else {
      assert s[..|s| - 1] == "";
    }
  }

  lemma DecimalInjective(m: nat, n: nat)
    requires Decimal(m) == Decimal(n)
    ensures m == n
  {
    DecimalReads(m);
    DecimalReads(n);
  }

  function FlowName(teid: U32, qfi: U8): string {
    Decimal(teid) + [':'] + Decimal(qfi)
  }

  lemma FirstColon(a: string, b: string, c: string, d: string)
    requires ':' !in a && ':' !in c && a + [':'] + b == c + [':'] + d
    ensures a == c && b == d
  {
    var s, t := a + [':'] + b, c + [':'] + d;
    assert forall i :: 0 <= i < |a| ==> s[i] == a[i];
    assert forall i :: 0 <= i < |c| ==> t[i] == c[i];
    assert s[|a|] == ':' && t[|c|] == ':';
    assert |a| == |c|;
    assert s[..|a|] == a && t[..|c|] == c && s[|a| + 1..] == b && t[|c| + 1..] == d;
  }

  /** Different flows have different names. */
  lemma FlowNameInjective(t1: U32, q1: U8, t2: U32, q2: U8)
    requires FlowName(t1, q1) == FlowName(t2, q2)
    ensures t1 == t2 && q1 == q2
  {
    FirstColon(Decimal(t1), Decimal(q1), Decimal(t2), Decimal(q2));
    DecimalInjective(t1, t2);
    DecimalInjective(q1, q2);
  }
}
