/**
 The token bucket of the data plane: refill and consume on 64-bit counters that wrap.
 */
module TokenBuckets {
  import opened Machine

  const NS_PER_SEC: int := 1_000_000_000

  /** The value of a `struct token_bucket`; tokens and burst are counted in bits. */
  datatype Bucket = Bucket(tokens: U64, lastUpdateNs: U64, rateBps: U64, burstSize: U64)

  /** The fill level after earning `product` / 10^9 tokens, each 64-bit result wrapping. */
  function ToppedUp(tokens: U64, product: nat, burst: U64): U64 {
    var total := Wrap64(tokens + Wrap64(product) / NS_PER_SEC);
    if total > burst then burst else total
  }

  function Refilled(b: Bucket, now: U64): Bucket {
    if b.rateBps == 0 then b else
    var elapsed := Wrap64(now - b.lastUpdateNs);
    if elapsed > 0 && b.lastUpdateNs > 0 then
      b.(tokens := ToppedUp(b.tokens, elapsed * b.rateBps, b.burstSize), lastUpdateNs := now)
    else
      b.(lastUpdateNs := now)
  }

  function PacketBits(len: U64): U64 {
    Wrap64(len * 8)
  }

  predicate Accepts(b: Bucket, len: U64, now: U64) {
    Refilled(b, now).tokens >= PacketBits(len)
  }

  function Consumed(b: Bucket, len: U64, now: U64): Bucket {
    var r := Refilled(b, now);
    if Accepts(b, len, now) then r.(tokens := r.tokens - PacketBits(len)) else r
  }

  /** A `struct token_bucket`, updated in place. */
  class TokenBucket {
    var tokens: U64
    var lastUpdateNs: U64
    var rateBps: U64
    var burstSize: U64

    constructor (b: Bucket)
      ensures Value() == b
    {
      tokens, lastUpdateNs, rateBps, burstSize := b.tokens, b.lastUpdateNs, b.rateBps, b.burstSize;
    }

    function Value(): Bucket
      reads this
    {
      Bucket(tokens, lastUpdateNs, rateBps, burstSize)
    }

    method Refill(now: U64)
      modifies this
      ensures Value() == Refilled(old(Value()), now)
    {
      hide Wrap64;
      if rateBps == 0 {
        return;
      }
      var elapsed := Wrap64(now - lastUpdateNs);
      if elapsed > 0 && lastUpdateNs > 0 {
        var newTokens := Wrap64(elapsed * rateBps) / NS_PER_SEC;
        var total := Wrap64(tokens + newTokens);
        if total > burstSize {
          total := burstSize;
        }
        tokens := total;
      }
      lastUpdateNs := now;
    }

    method Consume(len: U64, now: U64) returns (ok: bool)
      modifies this
      ensures ok == Accepts(old(Value()), len, now)
      ensures Value() == Consumed(old(Value()), len, now)
    {
      Refill(now);
      var pktBits := Wrap64(len * 8);
      if tokens >= pktBits {
        tokens := tokens - pktBits;
        return true;
      }
      return false;
    }
  }

  // ---------- One step against time ----------

  /** However the 64-bit intermediate results wrap, a bucket never holds more than its burst. */
  lemma RefillWithinBurst(b: Bucket, now: U64)
    requires b.tokens <= b.burstSize
    ensures Refilled(b, now).tokens <= b.burstSize
  {
  }

  lemma ConsumeWithinBurst(b: Bucket, len: U64, now: U64)
    requires b.tokens <= b.burstSize
    ensures var c := Consumed(b, len, now);
      c.tokens <= c.burstSize == b.burstSize && c.rateBps == b.rateBps
  {
    hide ToppedUp;
    RefillWithinBurst(b, now);
  }

  /** A forward gap earns at most gap * rate / 10^9 bits, even when the product or the sum wraps. */
  lemma RefillAtMostElapsed(b: Bucket, now: U64)
    requires b.tokens <= b.burstSize
    requires now >= b.lastUpdateNs
    ensures NS_PER_SEC * Refilled(b, now).tokens <= NS_PER_SEC * b.tokens + (now - b.lastUpdateNs) * b.rateBps
  {
    hide ToppedUp;
    var gap := now - b.lastUpdateNs;
    ProductNonNegative(gap, b.rateBps);
    ToppedUpAtMost(b.tokens, gap * b.rateBps, b.burstSize);
  }

  lemma ToppedUpAtMost(tokens: U64, product: nat, burst: U64)
    ensures NS_PER_SEC * ToppedUp(tokens, product, burst) <= NS_PER_SEC * tokens + product
  {
    assert Wrap64(product) <= product;
    var earned := Wrap64(product) / NS_PER_SEC;
    assert Wrap64(tokens + earned) <= tokens + earned;
  }

  lemma ToppedUpExactly(tokens: U64, product: nat, burst: U64)
    requires product < TWO64 && tokens + product / NS_PER_SEC < TWO64
    ensures ToppedUp(tokens, product, burst) ==
            if tokens + product / NS_PER_SEC > burst then burst else tokens + product / NS_PER_SEC
  {
    assert Wrap64(product) == product;
  }

  lemma ProductNonNegative(x: int, y: int)
    requires x >= 0 && y >= 0
    ensures x * y >= 0
  {
  }

  /**
   What one refill makes of the contents, wrap-arounds included: the gap is the difference of the clocks
   mod 2^64, so are its product with the rate and the new total, and the burst is the ceiling.
   A bucket never used before, or without a rate, earns nothing; one without a rate keeps its clock.
   */
  lemma RefillIs(b: Bucket, now: U64)
    ensures var gap := (now - b.lastUpdateNs) % 0x1_0000_0000_0000_0000;
      var total := (b.tokens + gap * b.rateBps % 0x1_0000_0000_0000_0000 / 1_000_000_000) % 0x1_0000_0000_0000_0000;
      && (b.rateBps > 0 && b.lastUpdateNs > 0 && gap > 0 ==>
            Refilled(b, now) == Bucket(if total > b.burstSize then b.burstSize else total, now, b.rateBps, b.burstSize))
      && (b.rateBps > 0 && (b.lastUpdateNs == 0 || gap == 0) ==>
            Refilled(b, now) == Bucket(b.tokens, now, b.rateBps, b.burstSize))
      && (b.rateBps == 0 ==> Refilled(b, now) == b)
  {
    hide ToppedUp;
    var gap := Wrap64(now - b.lastUpdateNs);
    ProductNonNegative(gap, b.rateBps);
    ToppedUpIs(b.tokens, gap * b.rateBps, b.burstSize);
  }

  lemma ToppedUpIs(tokens: U64, product: nat, burst: U64)
    ensures var total := (tokens + product % 0x1_0000_0000_0000_0000 / 1_000_000_000) % 0x1_0000_0000_0000_0000;
      ToppedUp(tokens, product, burst) == if total > burst then burst else total
  {
  }

  /** A packet of fewer than 2^61 octets is accepted iff its bits are there, and then they are taken. */
  lemma ConsumeIs(b: Bucket, len: U64, now: U64)
    requires len < 0x2000_0000_0000_0000
    ensures Accepts(b, len, now) <==> Refilled(b, now).tokens >= 8 * len
    ensures Accepts(b, len, now) ==> Consumed(b, len, now) == Refilled(b, now).(tokens := Refilled(b, now).tokens - 8 * len)
    ensures !Accepts(b, len, now) ==> Consumed(b, len, now) == Refilled(b, now)
  {
    hide Refilled;
    assert PacketBits(len) == 8 * len;
  }
}
