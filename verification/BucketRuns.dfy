/**
 Whole runs of one token bucket: packets with arbitrary timestamps, interleaved with the
 control plane's rate update, which reads the map entry (Begin) and later writes the
 possibly stale copy back (Commit).
 */
module BucketRuns {
  import opened Machine
  import opened TokenBuckets

  datatype Event =
    | Packet(len: U64, now: U64)
    | Begin
    | Commit(rate: U64)

  /** The map entry, and the copy held by an update that has begun and not yet committed. */
  datatype State = State(entry: Bucket, snapshot: Option<Bucket>)

  function Step(s: State, e: Event): State {
    match e
    case Packet(len, now) => s.(entry := Consumed(s.entry, len, now))
    case Begin => s.(snapshot := Some(s.entry))
    case Commit(rate) =>
      if s.snapshot.None? then s else State(s.snapshot.value.(rateBps := rate), None)
  }

  function Run(s: State, es: seq<Event>): State
    decreases |es|
  {
    if es == [] then s else Run(Step(s, es[0]), es[1..])
  }

  /** The bits of all packets the bucket accepts along a run. */
  function Admitted(s: State, es: seq<Event>): nat
    decreases |es|
  {
    if es == [] then 0 else
    (match es[0]
     case Packet(len, now) => if Accepts(s.entry, len, now) then 8 * len else 0
     case _ => 0) + Admitted(Step(s, es[0]), es[1..])
  }

  /** The time that passes between consecutive packets with no commit between them. */
  function ForwardGaps(prev: Option<U64>, es: seq<Event>): nat
    decreases |es|
  {
    if es == [] then 0 else
    match es[0]
    case Packet(_, now) =>
      (if prev.Some? && now > prev.value then now - prev.value else 0) + ForwardGaps(Some(now), es[1..])
    case Begin => ForwardGaps(prev, es[1..])
    case Commit(_) => ForwardGaps(None, es[1..])
  }

  /** How often a packet carries an earlier timestamp than the packet before it. */
  function BackwardSteps(prev: Option<U64>, es: seq<Event>): nat
    decreases |es|
  {
    if es == [] then 0 else
    match es[0]
    case Packet(_, now) =>
      (if prev.Some? && now < prev.value then 1 else 0) + BackwardSteps(Some(now), es[1..])
    case Begin => BackwardSteps(prev, es[1..])
    case Commit(_) => BackwardSteps(None, es[1..])
  }

  function Commits(es: seq<Event>): nat {
    if es == [] then 0 else (if es[0].Commit? then 1 else 0) + Commits(es[1..])
  }

  /** Rates never exceed r, and packet lengths are short enough that len * 8 does not wrap. */
  predicate Bounded(es: seq<Event>, r: nat) {
    forall i :: 0 <= i < |es| ==>
      match es[i]
      case Packet(len, _) => len < 0x2000_0000_0000_0000
      case Begin => true
      case Commit(rate) => rate <= r
  }

  /** What holds of the entry, and of the copy an update may write back over it. */
  predicate Sound(s: State, r: nat) {
    && s.entry.tokens <= s.entry.burstSize
    && s.entry.rateBps <= r
    && (s.snapshot.Some? ==>
          s.snapshot.value.tokens <= s.snapshot.value.burstSize == s.entry.burstSize)
  }

  /** What is left to spend: a full burst right after the start or a commit, the tokens otherwise. */
  function Credit(s: State, prev: Option<U64>): nat {
    if prev.None? then s.entry.burstSize else s.entry.tokens
  }

  predicate InSync(s: State, prev: Option<U64>) {
    prev.Some? ==> s.entry.rateBps == 0 || s.entry.lastUpdateNs == prev.value
  }

  /** A packet takes its own length out of the refilled bucket, or nothing. */
  lemma ConsumeSpends(b: Bucket, len: U64, now: U64)
    requires len < 0x2000_0000_0000_0000
    ensures (if Accepts(b, len, now) then 8 * len else 0) + Consumed(b, len, now).tokens == Refilled(b, now).tokens
    ensures Consumed(b, len, now).burstSize == b.burstSize && Consumed(b, len, now).rateBps == b.rateBps
    ensures b.rateBps != 0 ==> Consumed(b, len, now).lastUpdateNs == now
  {
    assert PacketBits(len) == 8 * len;
  }

  /** What a refill adds is paid for by the gap since the previous packet or by one burst. */
  lemma RefillPays(s: State, prev: Option<U64>, now: U64, r: nat)
    requires Sound(s, r) && InSync(s, prev)
    ensures
      var gap := if prev.Some? && now > prev.value then now - prev.value else 0;
      var back := if prev.Some? && now < prev.value then 1 else 0;
      NS_PER_SEC * Refilled(s.entry, now).tokens
      <= NS_PER_SEC * (Credit(s, prev) + s.entry.burstSize * back) + r * gap
  {
    var b := s.entry;
    RefillWithinBurst(b, now);
    if prev.Some? && now >= prev.value {
      var gap := now - prev.value;
      ProductNonNegative(r, gap);
      if b.rateBps > 0 {
        RefillAtMostElapsed(b, now);
        MulMonotone(gap, b.rateBps, r);
      }
    }
  }

  lemma MulMonotone(g: nat, x: nat, r: nat)
    requires x <= r
    ensures g * x <= r * g
  {
  }

  /** Two bounds in a row add up. */
  lemma BoundsCompose(credit: int, credit': int, burst: int, anomalies: int, later: int, r: int, gap: int, gaps: int,
                      bits: int, rest: int)
    requires NS_PER_SEC * (bits + credit') <= NS_PER_SEC * (credit + burst * anomalies) + r * gap
    requires NS_PER_SEC * rest <= NS_PER_SEC * (credit' + burst * later) + r * gaps
    ensures NS_PER_SEC * (bits + rest) <= NS_PER_SEC * (credit + burst * (anomalies + later)) + r * (gap + gaps)
  {
    Distribute(burst, anomalies, later);
    Distribute(r, gap, gaps);
  }

  lemma BoundedSplit(es: seq<Event>, r: nat)
    requires Bounded(es, r) && es != []
    ensures Bounded([es[0]], r) && Bounded(es[1..], r)
  {
  }

  function Bits(s: State, e: Event): nat {
    if e.Packet? && Accepts(s.entry, e.len, e.now) then 8 * e.len else 0
  }

  /** The time, and the anomalies, that one event adds. */
  function Gap(prev: Option<U64>, e: Event): nat {
    if e.Packet? && prev.Some? && e.now > prev.value then e.now - prev.value else 0
  }

  function Anomalies(prev: Option<U64>, e: Event): nat {
    if e.Commit? || (e.Packet? && prev.Some? && e.now < prev.value) then 1 else 0
  }

  function Next(prev: Option<U64>, e: Event): Option<U64> {
    match e case Packet(_, now) => Some(now) case Begin => prev case Commit(_) => None
  }

  lemma FirstEvent(s: State, prev: Option<U64>, es: seq<Event>)
    requires es != []
    ensures var e, rest := es[0], es[1..];
      && Admitted(s, es) == Bits(s, e) + Admitted(Step(s, e), rest)
      && ForwardGaps(prev, es) == Gap(prev, e) + ForwardGaps(Next(prev, e), rest)
      && BackwardSteps(prev, es) + Commits(es) == Anomalies(prev, e) + (BackwardSteps(Next(prev, e), rest) + Commits(rest))
  {
    hide Accepts, Step;
  }

  /** One event pays for what it grants from the credit, the time before it or one burst. */
  lemma EventPays(s: State, prev: Option<U64>, e: Event, r: nat)
    requires Sound(s, r) && InSync(s, prev) && Bounded([e], r)
    ensures var s', prev' := Step(s, e), Next(prev, e);
      && Sound(s', r) && InSync(s', prev') && s'.entry.burstSize == s.entry.burstSize
      && NS_PER_SEC * (Bits(s, e) + Credit(s', prev'))
         <= NS_PER_SEC * (Credit(s, prev) + s.entry.burstSize * Anomalies(prev, e)) + r * Gap(prev, e)
  {
    hide Refilled, Consumed, Accepts;
    assert [e][0] == e;
    if e.Packet? {
      ConsumeSpends(s.entry, e.len, e.now);
      RefillWithinBurst(s.entry, e.now);
      RefillPays(s, prev, e.now, r);
    }
  }

  lemma {:induction false} RateBoundFrom(s: State, prev: Option<U64>, es: seq<Event>, r: nat)
    requires Sound(s, r) && InSync(s, prev) && Bounded(es, r)
    ensures NS_PER_SEC * Admitted(s, es)
            <= NS_PER_SEC * (Credit(s, prev) + s.entry.burstSize * (BackwardSteps(prev, es) + Commits(es)))
               + r * ForwardGaps(prev, es)
    decreases |es|
  {
    if es == [] {
    } else {
      hide *;
      var e, rest := es[0], es[1..];
      BoundedSplit(es, r);
      FirstEvent(s, prev, es);
      EventPays(s, prev, e, r);
      RateBoundFrom(Step(s, e), Next(prev, e), rest, r);
      BoundsCompose(Credit(s, prev), Credit(Step(s, e), Next(prev, e)), s.entry.burstSize, Anomalies(prev, e),
                    BackwardSteps(Next(prev, e), rest) + Commits(rest),
                    r, Gap(prev, e), ForwardGaps(Next(prev, e), rest), Bits(s, e), Admitted(Step(s, e), rest));
    }
  }

  lemma Distribute(x: int, y: int, z: int)
    ensures x * (y + z) == x * y + x * z
  {
  }

  /**
   The long-run rate bound: whatever the timestamps, the interleaving of rate updates and the
   64-bit wrap-arounds, a bucket that starts within its burst admits at most one burst, plus one
   for every backward timestamp and every commit, plus r bits per second of forward time.
   */
  lemma RateBound(b: Bucket, es: seq<Event>, r: nat)
    requires b.tokens <= b.burstSize && b.rateBps <= r && Bounded(es, r)
    ensures Admitted(State(b, None), es)
            <= b.burstSize * (1 + BackwardSteps(None, es) + Commits(es)) + r * ForwardGaps(None, es) / NS_PER_SEC
  {
    RateBoundFrom(State(b, None), None, es, r);
    Distribute(b.burstSize, 1, BackwardSteps(None, es) + Commits(es));
  }

  // ---------- The bound is attained ----------

  /** k rate updates, each of which writes back a copy read before a full burst was spent. */
  function StaleUpdates(k: nat, len: U64, now: U64, rate: U64): seq<Event> {
    if k == 0 then [Packet(len, now)]
    else [Begin, Packet(len, now), Commit(rate)] + StaleUpdates(k - 1, len, now, rate)
  }

  /** Each stale commit hands a spent burst back: the commit term of the bound cannot be dropped. */
  lemma {:induction false} StaleCommitsRefund(b: Bucket, k: nat, len: U64, now: U64, rate: U64)
    requires b.tokens == b.burstSize == 8 * len && b.lastUpdateNs == 0
    ensures var es := StaleUpdates(k, len, now, rate);
      && Admitted(State(b, None), es) == b.burstSize * (1 + k)
      && Commits(es) == k && BackwardSteps(None, es) == 0 && ForwardGaps(None, es) == 0
    decreases k
  {
    var es := StaleUpdates(k, len, now, rate);
    assert PacketBits(len) == 8 * len;
    if k == 0 {
      assert es[1..] == [];
    } else {
      var rest := StaleUpdates(k - 1, len, now, rate);
      var s0 := State(b, None);
      var s1 := Step(s0, Begin);
      var s2 := Step(s1, Packet(len, now));
      assert s2.snapshot == Some(b) && Accepts(b, len, now);
      assert Step(s2, Commit(rate)) == State(b.(rateBps := rate), None);
      assert es == [Begin] + ([Packet(len, now)] + ([Commit(rate)] + rest));
      Unfold(s0, None, Begin, [Packet(len, now)] + ([Commit(rate)] + rest));
      Unfold(s1, None, Packet(len, now), [Commit(rate)] + rest);
      Unfold(s2, Some(now), Commit(rate), rest);
      StaleCommitsRefund(b.(rateBps := rate), k - 1, len, now, rate);
      Distribute(b.burstSize, 1, k);
    }
  }

  lemma Unfold(s: State, prev: Option<U64>, e: Event, rest: seq<Event>)
    ensures Admitted(s, [e] + rest) ==
            (if e.Packet? && Accepts(s.entry, e.len, e.now) then 8 * e.len else 0) + Admitted(Step(s, e), rest)
    ensures Commits([e] + rest) == (if e.Commit? then 1 else 0) + Commits(rest)
    ensures !e.Packet? ==>
              var prev' := if e.Begin? then prev else None;
              && BackwardSteps(prev, [e] + rest) == BackwardSteps(prev', rest)
              && ForwardGaps(prev, [e] + rest) == ForwardGaps(prev', rest)
    ensures e.Packet? && prev.None? ==>
              && BackwardSteps(prev, [e] + rest) == BackwardSteps(Some(e.now), rest)
              && ForwardGaps(prev, [e] + rest) == ForwardGaps(Some(e.now), rest)
  {
    assert ([e] + rest)[1..] == rest;
  }

  /** k + 1 packets, each with an earlier timestamp than the one before. */
  function Backward(k: nat, len: U64, t: U64): seq<Event>
    requires k <= t
  {
    [Packet(len, t)] + (if k == 0 then [] else Backward(k - 1, len, t - 1))
  }

  /** At one bit per second the wrapped gap of a step back is still worth 18 * 10^9 bits. */
  lemma StepBackRefills(b: Bucket, now: U64)
    requires b.rateBps == 1 && b.tokens <= b.burstSize <= 18 * NS_PER_SEC && b.lastUpdateNs == now + 1
    ensures Refilled(b, now) == b.(tokens := b.burstSize, lastUpdateNs := now)
  {
    assert Wrap64(now - b.lastUpdateNs) == TWO64 - 1;
    assert Wrap64((TWO64 - 1) * 1) / NS_PER_SEC == 18446744073;
    assert ToppedUp(b.tokens, TWO64 - 1, b.burstSize) == b.burstSize;
  }

  lemma {:induction false} BackwardRefillsFrom(b: Bucket, k: nat, len: U64, t: U64)
    requires b.rateBps == 1 && b.tokens <= b.burstSize == 8 * len <= 18 * NS_PER_SEC
    requires k <= t && Refilled(b, t) == b.(tokens := b.burstSize, lastUpdateNs := t)
    ensures var es := Backward(k, len, t);
      && Admitted(State(b, None), es) == b.burstSize * (1 + k)
      && Commits(es) == 0 && BackwardSteps(Some(t), es) == k && ForwardGaps(Some(t), es) == 0
    decreases k
  {
    hide Refilled;
    assert PacketBits(len) == 8 * len && Accepts(b, len, t);
    var rest := if k == 0 then [] else Backward(k - 1, len, t - 1);
    assert Backward(k, len, t)[1..] == rest;
    var b1 := Consumed(b, len, t);
    assert Step(State(b, None), Packet(len, t)) == State(b1, None);
    if k > 0 {
      StepBackRefills(b1, t - 1);
      BackwardRefillsFrom(b1, k - 1, len, t - 1);
      BackwardFrom(k - 1, len, t);
      Distribute(b.burstSize, 1, k);
    }
  }

  /** Seen from one step later, the run goes back once more. */
  lemma BackwardFrom(k: nat, len: U64, t: U64)
    requires k < t
    ensures var es := Backward(k, len, t - 1);
      && BackwardSteps(Some(t), es) == 1 + BackwardSteps(Some(t - 1), es)
      && ForwardGaps(Some(t), es) == ForwardGaps(Some(t - 1), es)
      && BackwardSteps(None, es) == BackwardSteps(Some(t - 1), es)
      && ForwardGaps(None, es) == ForwardGaps(Some(t - 1), es)
  {
  }

  /** Each step back in time hands a burst back too: the backward term cannot be dropped either. */
  lemma BackwardStepsRefund(b: Bucket, k: nat, len: U64, t: U64)
    requires b.rateBps == 1 && b.tokens == b.burstSize == 8 * len <= 18 * NS_PER_SEC && b.lastUpdateNs == 0
    requires k < t < TWO64 - 1
    ensures var es := Backward(k, len, t);
      && Admitted(State(b, None), es) == b.burstSize * (1 + k)
      && Commits(es) == 0 && BackwardSteps(None, es) == k && ForwardGaps(None, es) == 0
  {
    assert Refilled(b, t) == b.(tokens := b.burstSize, lastUpdateNs := t);
    BackwardRefillsFrom(b, k, len, t);
    BackwardFrom(k, len, t + 1);
  }

  /**
   A limit of the arithmetic rather than of the data plane, whose frames are short: at 2^61 octets the
   bit count wraps to 0 and an empty bucket accepts, so the bound does need its limit on lengths.
   */
  lemma LongPacketsAreFree(b: Bucket, now: U64)
    requires b.tokens == 0 && b.lastUpdateNs == 0
    ensures var es := [Packet(0x2000_0000_0000_0000, now)];
      && Admitted(State(b, None), es) == TWO64
      && Run(State(b, None), es).entry.tokens == 0
  {
    hide Refilled;
    var e := Packet(0x2000_0000_0000_0000, now);
    assert [e] == [e] + [] && [e][1..] == [];
    assert Refilled(b, now).tokens == 0 by { NeverUsedKeepsTokens(b, now); }
    assert PacketBits(e.len) == 0;
  }

  lemma NeverUsedKeepsTokens(b: Bucket, now: U64)
    requires b.lastUpdateNs == 0
    ensures Refilled(b, now).tokens == b.tokens
  {
  }

  // ---------- Packets only ----------

  datatype Arrival = Arrival(len: U64, now: U64)

  function AfterAll(b: Bucket, ps: seq<Arrival>): Bucket
    decreases |ps|
  {
    if ps == [] then b else AfterAll(Consumed(b, ps[0].len, ps[0].now), ps[1..])
  }

  /** Every gap is too short to earn a whole bit. */
  predicate ShortGaps(b: Bucket, ps: seq<Arrival>)
    decreases |ps|
  {
    ps != [] ==>
      && ps[0].now >= b.lastUpdateNs
      && (b.lastUpdateNs > 0 ==> (ps[0].now - b.lastUpdateNs) * b.rateBps < NS_PER_SEC)
      && ShortGaps(Consumed(b, ps[0].len, ps[0].now), ps[1..])
  }

  function AdmittedBits(b: Bucket, ps: seq<Arrival>): nat
    decreases |ps|
  {
    if ps == [] then 0 else
    (if Accepts(b, ps[0].len, ps[0].now) then 8 * ps[0].len else 0)
    + AdmittedBits(Consumed(b, ps[0].len, ps[0].now), ps[1..])
  }

  /**
   A flow whose packets come close together is starved: the clock moves on at every packet while
   the floor adds nothing, so a run of any length spends at most the tokens it started with.
   */
  lemma {:induction false} ShortGapsNeverRefill(b: Bucket, ps: seq<Arrival>)
    requires ShortGaps(b, ps) && b.tokens <= b.burstSize
    requires forall i :: 0 <= i < |ps| ==> ps[i].len < 0x2000_0000_0000_0000
    ensures AdmittedBits(b, ps) + AfterAll(b, ps).tokens == b.tokens
    decreases |ps|
  {
    hide Refilled, Accepts, Consumed;
    if ps == [] {
    } else {
      ShortGapAddsNothing(b, ps[0].now);
      ConsumeSpends(b, ps[0].len, ps[0].now);
      ShortGapsNeverRefill(Consumed(b, ps[0].len, ps[0].now), ps[1..]);
    }
  }

  lemma ShortGapAddsNothing(b: Bucket, now: U64)
    requires b.tokens <= b.burstSize && now >= b.lastUpdateNs
    requires b.lastUpdateNs > 0 ==> (now - b.lastUpdateNs) * b.rateBps < NS_PER_SEC
    ensures Refilled(b, now).tokens == b.tokens
  {
    hide ToppedUp;
    if b.rateBps > 0 && b.lastUpdateNs > 0 && now > b.lastUpdateNs {
      ProductNonNegative(now - b.lastUpdateNs, b.rateBps);
      ToppedUpExactly(b.tokens, (now - b.lastUpdateNs) * b.rateBps, b.burstSize);
    }
  }

  // ---------- Against an exact bucket ----------

  /** An ideal bucket that keeps fractions: its contents are counted in 10^-9 bit. */
  datatype Exact = Exact(nano: nat, lastUpdateNs: U64)

  function ExactRefilled(e: Exact, rate: U64, burst: U64, now: U64): Exact
    requires now >= e.lastUpdateNs
  {
    if rate == 0 then e else
    if e.lastUpdateNs == 0 then Exact(e.nano, now) else
    var full := e.nano + (now - e.lastUpdateNs) * rate;
    Exact(if full > burst * NS_PER_SEC then burst * NS_PER_SEC else full, now)
  }

  /** The packet comes no earlier than the last one, and neither 64-bit operation wraps. */
  predicate NoWrap(b: Bucket, p: Arrival) {
    && p.len < 0x2000_0000_0000_0000
    && p.now >= b.lastUpdateNs
    && (b.lastUpdateNs > 0 ==>
          && (p.now - b.lastUpdateNs) * b.rateBps < TWO64
          && b.tokens + (p.now - b.lastUpdateNs) * b.rateBps / NS_PER_SEC < TWO64)
  }

  predicate ExactAccepts(e: Exact, b: Bucket, p: Arrival)
    requires p.now >= e.lastUpdateNs
  {
    ExactRefilled(e, b.rateBps, b.burstSize, p.now).nano >= 8 * p.len * NS_PER_SEC
  }

  function ExactConsumed(e: Exact, b: Bucket, p: Arrival): Exact
    requires p.now >= e.lastUpdateNs && ExactAccepts(e, b, p)
  {
    var r := ExactRefilled(e, b.rateBps, b.burstSize, p.now);
    r.(nano := r.nano - 8 * p.len * NS_PER_SEC)
  }

  /** Along ps nothing wraps and both buckets accept every packet. */
  predicate BothAccept(b: Bucket, e: Exact, ps: seq<Arrival>)
    requires e.lastUpdateNs == b.lastUpdateNs
    decreases |ps|
  {
    ps != [] ==>
      && NoWrap(b, ps[0])
      && Accepts(b, ps[0].len, ps[0].now)
      && ExactAccepts(e, b, ps[0])
      && BothAccept(Consumed(b, ps[0].len, ps[0].now), ExactConsumed(e, b, ps[0]), ps[1..])
  }

  function ExactAfterAll(b: Bucket, e: Exact, ps: seq<Arrival>): (e': Exact)
    requires e.lastUpdateNs == b.lastUpdateNs && BothAccept(b, e, ps)
    ensures e'.lastUpdateNs == AfterAll(b, ps).lastUpdateNs
    decreases |ps|
  {
    if ps == [] then e
    else ExactAfterAll(Consumed(b, ps[0].len, ps[0].now), ExactConsumed(e, b, ps[0]), ps[1..])
  }

  /** The code's tokens never exceed the exact bucket's, and trail it by at most n bits. */
  predicate Tracks(b: Bucket, e: Exact, n: nat) {
    && b.lastUpdateNs == e.lastUpdateNs
    && b.tokens <= b.burstSize
    && b.tokens * NS_PER_SEC <= e.nano <= (b.tokens + n) * NS_PER_SEC
    && e.nano <= b.burstSize * NS_PER_SEC
  }

  /** One refill rounds down by less than a bit. */
  lemma RefillTracks(b: Bucket, e: Exact, p: Arrival, n: nat)
    requires Tracks(b, e, n) && NoWrap(b, p)
    ensures Tracks(Refilled(b, p.now), ExactRefilled(e, b.rateBps, b.burstSize, p.now), n + 1)
    ensures ExactRefilled(e, b.rateBps, b.burstSize, p.now).nano
            < (Refilled(b, p.now).tokens + n + 1) * NS_PER_SEC
  {
    hide ToppedUp;
    var gap := p.now - b.lastUpdateNs;
    ProductNonNegative(gap, b.rateBps);
    if b.rateBps > 0 && b.lastUpdateNs > 0 && gap > 0 {
      ToppedUpExactly(b.tokens, gap * b.rateBps, b.burstSize);
    }
  }

  /** When both accept, both lose exactly the packet's bits. */
  lemma ConsumeTracks(b: Bucket, e: Exact, p: Arrival, n: nat)
    requires Tracks(b, e, n) && NoWrap(b, p) && Accepts(b, p.len, p.now) && ExactAccepts(e, b, p)
    ensures Tracks(Consumed(b, p.len, p.now), ExactConsumed(e, b, p), n + 1)
  {
    hide ToppedUp, Refilled, ExactRefilled;
    RefillTracks(b, e, p, n);
    assert PacketBits(p.len) == 8 * p.len;
  }

  lemma {:induction false} TracksExactFrom(b: Bucket, e: Exact, ps: seq<Arrival>, n: nat)
    requires Tracks(b, e, n) && BothAccept(b, e, ps)
    ensures Tracks(AfterAll(b, ps), ExactAfterAll(b, e, ps), n + |ps|)
    decreases |ps|
  {
    hide Refilled, ExactRefilled, Accepts, ExactAccepts, Consumed, ExactConsumed;
    if ps == [] {
    } else {
      ConsumeTracks(b, e, ps[0], n);
      TracksExactFrom(Consumed(b, ps[0].len, ps[0].now), ExactConsumed(e, b, ps[0]), ps[1..], n + 1);
    }
  }

  /** Accepting by the code implies accepting by the exact bucket; n bits to spare give the converse. */
  lemma AcceptanceTracks(b: Bucket, e: Exact, p: Arrival, n: nat)
    requires Tracks(b, e, n) && NoWrap(b, p)
    ensures Accepts(b, p.len, p.now) ==> ExactAccepts(e, b, p)
    ensures ExactRefilled(e, b.rateBps, b.burstSize, p.now).nano >= (8 * p.len + n) * NS_PER_SEC
            ==> Accepts(b, p.len, p.now)
  {
    hide ToppedUp, Refilled, ExactRefilled;
    RefillTracks(b, e, p, n);
    assert PacketBits(p.len) == 8 * p.len;
  }

  /**
   The integer bucket tracks the exact one. Starting level, and as long as both have accepted every
   packet, after n packets the code holds at most the exact contents and at most n bits less.
   Hence the next packet is accepted by the exact bucket whenever the code accepts it, and by the
   code whenever the exact bucket accepts it with n bits to spare.
   */
  lemma TracksExact(b: Bucket, ps: seq<Arrival>, next: Arrival)
    requires b.tokens <= b.burstSize
    requires BothAccept(b, Exact(b.tokens * NS_PER_SEC, b.lastUpdateNs), ps)
    requires NoWrap(AfterAll(b, ps), next)
    ensures
      var b' := AfterAll(b, ps);
      var e' := ExactAfterAll(b, Exact(b.tokens * NS_PER_SEC, b.lastUpdateNs), ps);
      && b'.tokens * NS_PER_SEC <= e'.nano <= (b'.tokens + |ps|) * NS_PER_SEC
      && (Accepts(b', next.len, next.now) ==> ExactAccepts(e', b', next))
      && (ExactRefilled(e', b'.rateBps, b'.burstSize, next.now).nano >= (8 * next.len + |ps|) * NS_PER_SEC
          ==> Accepts(b', next.len, next.now))
  {
    hide Refilled, ExactRefilled, Accepts, ExactAccepts, NoWrap, AfterAll, ExactAfterAll, BothAccept;
    var e := Exact(b.tokens * NS_PER_SEC, b.lastUpdateNs);
    TracksExactFrom(b, e, ps, 0);
    AcceptanceTracks(AfterAll(b, ps), ExactAfterAll(b, e, ps), next, |ps|);
  }
}
