/**
 Reading a PDR entry while other CPUs and the control plane may be rewriting it: the retry
 loop of pdr_lookup_safe, with the entry free to change between any two of its reads.
 */
module PdrLookup {
  import opened Machine
  import opened PdrChecksum

  const PDR_RETRY_MAX: nat := 3

  /** What one round reads: a version and a copy, and then the magic and the version once more. */
  datatype Round = Round(versionBefore: U32, copied: Snapshot, magicAfter: U32, versionAfter: U32)

  /** What the rounds of one lookup would read; nothing relates one read to the next. */
  type Rounds = r: seq<Round> | |r| == PDR_RETRY_MAX
    witness seq(PDR_RETRY_MAX, _ => Round(0, Snapshot(0, 0, [0, 0, 0, 0, 0, 0], 0, 0, 0, 0, 0), 0, 0))

  datatype Lookup = Lookup(found: Option<Snapshot>, tornReads: nat, retries: nat)

  predicate Clean(r: Round) {
    r.magicAfter == PDR_MAGIC && r.versionBefore == r.versionAfter && Verifies(r.copied)
  }

  /** A failed round counts as torn unless its magic was already wrong. */
  function TornRounds(rs: seq<Round>): (n: nat)
    ensures n <= |rs|
  {
    if rs == [] then 0
    else TornRounds(rs[..|rs| - 1]) + (if rs[|rs| - 1].magicAfter == PDR_MAGIC then 1 else 0)
  }

  /** The index of the first clean round, or the number of rounds when there is none. */
  function FirstClean(rs: seq<Round>): (k: nat)
    ensures k <= |rs|
    ensures forall i :: 0 <= i < k ==> !Clean(rs[i])
    ensures k < |rs| ==> Clean(rs[k])
  {
    if rs == [] then 0
    else if Clean(rs[0]) then 0
    else 1 + FirstClean(rs[1..])
  }

  /** The outcome of a lookup; the entry is None when the map holds no entry for the key. */
  function LookupSafe(entry: Option<Rounds>): (l: Lookup)
    ensures l.found.Some? <==> entry.Some? && exists i :: 0 <= i < PDR_RETRY_MAX && Clean(entry.value[i])
    ensures l.found.Some? ==> Verifies(l.found.value) && l.retries <= 2 && l.tornReads <= l.retries
    ensures l.found.None? && entry.Some? ==> l.retries == 3 && 1 <= l.tornReads <= 4
    ensures entry.None? ==> l.retries == 0 && l.tornReads == 0
  {
    if entry.None? then Lookup(None, 0, 0) else
    var k := FirstClean(entry.value);
    if k < PDR_RETRY_MAX then Lookup(Some(entry.value[k].copied), TornRounds(entry.value[..k]), k)
    else Lookup(None, TornRounds(entry.value) + 1, PDR_RETRY_MAX)
  }

  lemma FirstCleanIs(rs: seq<Round>, k: nat)
    requires k <= |rs|
    requires forall i :: 0 <= i < k ==> !Clean(rs[i])
    requires k < |rs| ==> Clean(rs[k])
    ensures FirstClean(rs) == k
  {
  }

  method PdrLookupSafe(entry: Option<Rounds>) returns (l: Lookup)
    ensures l == LookupSafe(entry)
  {
    if entry.None? {
      return Lookup(None, 0, 0);
    }
    var rounds := entry.value;
    var tornReads, retries := 0, 0;
    for retry := 0 to PDR_RETRY_MAX
      invariant retries == retry
      invariant forall i :: 0 <= i < retry ==> !Clean(rounds[i])
      invariant tornReads == TornRounds(rounds[..retry])
    {
      var round := rounds[retry];
      assert rounds[..retry + 1][..retry] == rounds[..retry];
      if round.magicAfter != PDR_MAGIC {
        retries := retries + 1;
        continue;
      }
      if round.versionBefore != round.versionAfter {
        tornReads := tornReads + 1;
        retries := retries + 1;
        continue;
      }
      var intact := VerifyIntegrity(round.copied);
      if !intact {
        tornReads := tornReads + 1;
        retries := retries + 1;
        continue;
      }
      FirstCleanIs(rounds, retry);
      return Lookup(Some(round.copied), tornReads, retries);
    }
    FirstCleanIs(rounds, PDR_RETRY_MAX);
    assert rounds[..PDR_RETRY_MAX] == rounds;
    tornReads := tornReads + 1;
    return Lookup(None, tornReads, retries);
  }

  /** The round's copy is taken: right magic, unchanged version, and the copy's own magic and checksum right. */
  lemma CleanIs(r: Round)
    ensures Clean(r) <==>
      && r.magicAfter == 0x5044_5255 && r.versionBefore == r.versionAfter
      && r.copied.magic == 0x5044_5255 && r.copied.checksum == KernelChecksum(r.copied)
  {
  }

  /** How many of the rounds saw the right magic and were still not clean. */
  function Torn(rs: seq<Round>): nat {
    if rs == [] then 0 else (if rs[0].magicAfter == 0x5044_5255 && !Clean(rs[0]) then 1 else 0) + Torn(rs[1..])
  }

  lemma {:induction false} TornFromBack(rs: seq<Round>)
    requires forall i :: 0 <= i < |rs| ==> !Clean(rs[i])
    ensures TornRounds(rs) == Torn(rs)
    decreases |rs|
  {
    hide Clean;
    if |rs| >= 1 {
      var front, last := rs[..|rs| - 1], rs[|rs| - 1];
      TornFromBack(front);
      TornMore(front, last);
      assert front + [last] == rs;
    }
  }

  lemma {:induction false} TornMore(rs: seq<Round>, r: Round)
    ensures Torn(rs + [r]) == Torn(rs) + Torn([r])
    decreases |rs|
  {
    hide Clean;
    if rs == [] {
      assert rs + [r] == [r];
    } else {
      TornMore(rs[1..], r);
      assert (rs + [r])[1..] == rs[1..] + [r];
    }
  }

  /**
   What a lookup reports, for every list of reads: the copy of round k if that is the first clean one, k
   retries and the torn rounds before it; with no clean round three retries and one torn read
   on top; nothing at all without an entry.
   */
  lemma LookupReports(entry: Option<Rounds>, k: nat)
    ensures entry.None? ==> LookupSafe(entry) == Lookup(None, 0, 0)
    ensures entry.Some? && k < 3 && Clean(entry.value[k]) && (forall i :: 0 <= i < k ==> !Clean(entry.value[i]))
            ==> LookupSafe(entry) == Lookup(Some(entry.value[k].copied), Torn(entry.value[..k]), k)
    ensures entry.Some? && (forall i :: 0 <= i < 3 ==> !Clean(entry.value[i]))
            ==> LookupSafe(entry) == Lookup(None, Torn(entry.value) + 1, 3)
  {
    hide Clean;
    if entry.Some? {
      var rs := entry.value;
      if forall i :: 0 <= i < 3 ==> !Clean(rs[i]) {
        FirstCleanIs(rs, 3);
        TornFromBack(rs);
      }
      if k < 3 && Clean(rs[k]) && forall i :: 0 <= i < k ==> !Clean(rs[i]) {
        FirstCleanIs(rs, k);
        TornFromBack(rs[..k]);
      }
    }
  }

  /** What a lookup reads when nobody interferes. */
  function Undisturbed(s: Snapshot): Rounds {
    seq(PDR_RETRY_MAX, _ => Round(s.version, s, s.magic, s.version))
  }

  /** Without interference an entry is returned at once if it verifies, and never otherwise. */
  lemma UndisturbedLookup(s: Snapshot)
    ensures Verifies(s) ==> LookupSafe(Some(Undisturbed(s))) == Lookup(Some(s), 0, 0)
    ensures !Verifies(s) && s.magic == PDR_MAGIC
            ==> LookupSafe(Some(Undisturbed(s))) == Lookup(None, 4, 3)
  {
    hide KernelChecksum;
    var rs := Undisturbed(s);
    if Verifies(s) && s.magic == PDR_MAGIC {
      FirstCleanIs(rs, 0);
    } else {
      FirstCleanIs(rs, 3);
      if s.magic == PDR_MAGIC {
        AllTorn(rs);
      }
    }
  }

  lemma AllTorn(rs: seq<Round>)
    requires forall i :: 0 <= i < |rs| ==> rs[i].magicAfter == PDR_MAGIC
    ensures TornRounds(rs) == |rs|
  {
  }

  /**
   An undisturbed entry written by the control plane is found by the data plane exactly when it
   forwards and the halves of its interface index balance its QFI; otherwise every lookup spends
   all its retries and reports four torn reads, although nothing was torn.
   */
  lemma GoEntryFoundIff(s: Snapshot)
    requires s.magic == PDR_MAGIC && s.checksum == GoChecksum(s)
    ensures LookupSafe(Some(Undisturbed(s))) ==
            if s.action == 0 && Low(s.ifindex) + s.qfi == High(s.ifindex) then Lookup(Some(s), 0, 0)
            else Lookup(None, 4, 3)
  {
    hide Verifies, GoChecksum;
    GoChecksumPassesIff(s);
    UndisturbedLookup(s);
  }
}
