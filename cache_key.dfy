/** The rate-limit cache-key generator of src/limiter/cache_key.go: for a domain, a
    descriptor, a matched limit and the current Unix time it writes
      prefix, domain, '_', then key '_' value '_' per entry, then the time bucket
    into a reusable buffer, and returns either that string or a hash of it. */
module CacheKeys {
  import opened GoTypes
  import opened Config
  import Strconv
  import opened ByteBuffer

  /** The key under which a counter is kept, and whether its limit is per second. */
  datatype CacheKey = CacheKey(key: Bytes, perSecond: bool)

  function IsPerSecondLimit(unit: Unit): bool {
    unit == Second
  }

  /** The seconds in a unit, as utils.UnitToDivider returns it: a positive int64. */
  type Divider = d: int | 0 < d <= MaxInt64 witness 1

  /** Go's `/` on integers, which truncates toward zero. */
  function TruncDiv(a: int, d: Divider): (q: int)
    ensures Abs(q) == Abs(a) / d
    ensures q != 0 ==> (q < 0 <==> a < 0)
  {
    if a >= 0 then a / d else -((-a) / d)
  }

  /** (now/divider)*divider: the start of the unit window holding `now`, taking windows
      of negative times toward zero as Go's division does. */
  function TimeBucket(now: Int64, divider: Divider): (b: Int64)
    ensures b % divider == 0
    ensures 0 <= now ==> 0 <= b <= now < b + divider
    ensures now < 0 ==> b - divider < now <= b <= 0
  {
    BucketBounds(now, divider);
    TruncDiv(now, divider) * divider
  }

  lemma BucketBounds(now: int, d: Divider)
    ensures var b := TruncDiv(now, d) * d;
            b % d == 0
            && (0 <= now ==> 0 <= b <= now < b + d)
            && (now < 0 ==> b - d < now <= b <= 0)
  {
    var q := TruncDiv(now, d);
    MultipleDividesEvenly(q, d);
    if 0 <= now {
      WindowBounds(now, d);
      MulNonneg(q, d);
    } else {
      var p := (-now) / d;
      WindowBounds(-now, d);
      MulNonneg(p, d);
      assert q * d == -(p * d);
    }
  }

  lemma WindowBounds(n: nat, d: Divider)
    ensures (n / d) * d <= n < (n / d) * d + d
  {
  }

  lemma MulNonneg(x: int, y: int)
    requires 0 <= x && 0 <= y
    ensures 0 <= x * y
  {
  }

  lemma MulMonotone(a: int, b: int, d: Divider)
    requires a <= b
    ensures a * d <= b * d
  {
    MulNonneg(b - a, d);
    assert b * d - a * d == (b - a) * d;
  }

  /** n lies in window k exactly when k is its quotient. */
  lemma QuotientUnique(n: int, d: Divider, k: int)
    requires k * d <= n < k * d + d
    ensures n / d == k && n % d == n - k * d
  {
    var q := n / d;
    assert n == q * d + n % d;
    if q < k {
      MulMonotone(q + 1, k, d);
    } else if k < q {
      MulMonotone(k + 1, q, d);
    }
  }

  lemma MultipleDividesEvenly(q: int, d: Divider)
    ensures (q * d) % d == 0
  {
    QuotientUnique(q * d, d, q);
  }

  /** What one entry contributes: its key and its value, each followed by '_'. */
  function EntryPiece(e: Entry): Bytes {
    e.key + [Underscore] + e.value + [Underscore]
  }

  /** The entries' pieces in input order. */
  function EntriesPart(entries: seq<Entry>): Bytes {
    if entries == [] then [] else EntryPiece(entries[0]) + EntriesPart(entries[1..])
  }

  /** The string makeHumanReadableCacheKey writes for a non-nil limit. */
  function HumanReadableKey(prefix: Bytes, domain: Bytes, descriptor: Descriptor, limit: RateLimit,
                            now: Int64, unitToDivider: Unit -> Divider): Bytes
  {
    prefix + domain + [Underscore] + EntriesPart(descriptor.entries)
      + Strconv.FormatInt(TimeBucket(now, unitToDivider(limit.limit.unit)))
  }

  /** What the human-readable generator returns. */
  function HumanReadableCacheKey(prefix: Bytes, domain: Bytes, descriptor: Descriptor, limit: Option<RateLimit>,
                                 now: Int64, unitToDivider: Unit -> Divider): (r: CacheKey)
    ensures r.key == [] <==> limit.None?
    ensures r.perSecond <==> limit.Some? && limit.value.limit.unit == Second
  {
    match limit
    case None => CacheKey([], false)
    case Some(l) => CacheKey(HumanReadableKey(prefix, domain, descriptor, l, now, unitToDivider),
                             IsPerSecondLimit(l.limit.unit))
  }

  /** What the hashing generator returns: nothing for a nil limit, otherwise the hash of the
      human-readable key's bytes with the same per-second flag. */
  function HashedCacheKey(prefix: Bytes, hash: Bytes -> Bytes, domain: Bytes, descriptor: Descriptor,
                          limit: Option<RateLimit>, now: Int64, unitToDivider: Unit -> Divider): (r: CacheKey)
    ensures limit.None? ==> r == CacheKey([], false)
    ensures limit.Some? ==>
      r.key == hash(HumanReadableCacheKey(prefix, domain, descriptor, limit, now, unitToDivider).key)
    ensures r.perSecond == HumanReadableCacheKey(prefix, domain, descriptor, limit, now, unitToDivider).perSecond
  {
    match limit
    case None => CacheKey([], false)
    case Some(l) => CacheKey(hash(HumanReadableKey(prefix, domain, descriptor, l, now, unitToDivider)),
                             IsPerSecondLimit(l.limit.unit))
  }

  lemma {:induction false} EntriesPartAppend(entries: seq<Entry>, e: Entry)
    ensures EntriesPart(entries + [e]) == EntriesPart(entries) + EntryPiece(e)
  {
    if entries == [] {
      assert entries + [e] == [e];
      assert EntriesPart([e]) == EntryPiece(e) + EntriesPart([]);
    } else {
      assert (entries + [e])[1..] == entries[1..] + [e];
      EntriesPartAppend(entries[1..], e);
    }
  }

  /** makeHumanReadableCacheKey: appends the key to whatever `b` holds. */
  method MakeHumanReadableCacheKey(b: Buffer, prefix: Bytes, domain: Bytes, descriptor: Descriptor,
                                   limit: RateLimit, now: Int64, unitToDivider: Unit -> Divider)
    modifies b
    ensures b.data == old(b.data) + HumanReadableKey(prefix, domain, descriptor, limit, now, unitToDivider)
  {
    b.WriteString(prefix);
    b.WriteString(domain);
    b.WriteByte(Underscore);
    ghost var start := b.data;
    var entries := descriptor.entries;
    for i := 0 to |entries|
      invariant b.data == start + EntriesPart(entries[..i])
    {
      var entry := entries[i];
      b.WriteString(entry.key);
      b.WriteByte(Underscore);
      b.WriteString(entry.value);
      b.WriteByte(Underscore);
      EntriesPartAppend(entries[..i], entry);
      assert entries[..i + 1] == entries[..i] + [entry];
    }
    assert entries[..|entries|] == entries;
    ghost var written := b.data;
    var divider := unitToDivider(limit.limit.unit);
    var bucket := TruncDiv(now, divider) * divider;
    b.WriteString(Strconv.FormatInt(bucket));
    KeyLayout(old(b.data), prefix, domain, descriptor, limit, now, unitToDivider, written, b.data);
  }

  lemma KeyLayout(before: Bytes, prefix: Bytes, domain: Bytes, descriptor: Descriptor,
                  limit: RateLimit, now: Int64, unitToDivider: Unit -> Divider, written: Bytes, after: Bytes)
    requires written == before + prefix + domain + [Underscore] + EntriesPart(descriptor.entries)
    requires var d := unitToDivider(limit.limit.unit);
             after == written + Strconv.FormatInt(TruncDiv(now, d) * d)
    ensures after == before + HumanReadableKey(prefix, domain, descriptor, limit, now, unitToDivider)
  {
  }

  class HumanReadableCacheKeyGenerator {
    const prefix: Bytes
    /** The pooled buffer: each call takes it, resets it and leaves it filled. */
    const bufferPool: Buffer

    constructor (prefix: Bytes)
      ensures this.prefix == prefix && fresh(bufferPool)
    {
      this.prefix := prefix;
      bufferPool := new Buffer();
    }

    method GenerateCacheKey(domain: Bytes, descriptor: Descriptor, limit: Option<RateLimit>, now: Int64,
                            unitToDivider: Unit -> Divider) returns (r: CacheKey)
      modifies bufferPool
      ensures r == HumanReadableCacheKey(prefix, domain, descriptor, limit, now, unitToDivider)
      ensures limit.None? ==> bufferPool.data == old(bufferPool.data)
      ensures limit.Some? ==> bufferPool.data == r.key
    {
      if limit == None {
        return CacheKey([], false);
      }
      var b := bufferPool;
      b.Reset();
      MakeHumanReadableCacheKey(b, prefix, domain, descriptor, limit.value, now, unitToDivider);
      assert b.data == HumanReadableKey(prefix, domain, descriptor, limit.value, now, unitToDivider);
      return CacheKey(b.Contents(), IsPerSecondLimit(limit.value.limit.unit));
    }
  }

  class HashCacheKeyGenerator {
    const prefix: Bytes
    /** The pooled buffer: each call takes it, resets it and leaves it filled. */
    const bufferPool: Buffer
    /** The injected hash of the buffer's bytes. */
    const hash: Bytes -> Bytes

    constructor (prefix: Bytes, hash: Bytes -> Bytes)
      ensures this.prefix == prefix && this.hash == hash && fresh(bufferPool)
    {
      this.prefix := prefix;
      bufferPool := new Buffer();
      this.hash := hash;
    }

    method GenerateCacheKey(domain: Bytes, descriptor: Descriptor, limit: Option<RateLimit>, now: Int64,
                            unitToDivider: Unit -> Divider) returns (r: CacheKey)
      modifies bufferPool
      ensures r == HashedCacheKey(prefix, hash, domain, descriptor, limit, now, unitToDivider)
      ensures limit.None? ==> bufferPool.data == old(bufferPool.data)
      ensures limit.Some? ==> bufferPool.data == HumanReadableCacheKey(prefix, domain, descriptor, limit, now, unitToDivider).key
    {
      if limit == None {
        return CacheKey([], false);
      }
      var b := bufferPool;
      b.Reset();
      MakeHumanReadableCacheKey(b, prefix, domain, descriptor, limit.value, now, unitToDivider);
      assert b.data == HumanReadableKey(prefix, domain, descriptor, limit.value, now, unitToDivider);
      return CacheKey(hash(b.Contents()), IsPerSecondLimit(limit.value.limit.unit));
    }
  }

  /** Two calls in a row on one human-readable generator, whatever the first left in the
      pooled buffer, return the same key for the same arguments. */
  method GenerateTwice(g: HumanReadableCacheKeyGenerator, domain: Bytes, descriptor: Descriptor,
                       limit: Option<RateLimit>, now: Int64, unitToDivider: Unit -> Divider)
    returns (first: CacheKey, second: CacheKey)
    modifies g.bufferPool
    ensures first == second
  {
    first := g.GenerateCacheKey(domain, descriptor, limit, now, unitToDivider);
    second := g.GenerateCacheKey(domain, descriptor, limit, now, unitToDivider);
  }

  /** The same for a hashing generator: its buffer is reset too, so the second call hashes
      the same bytes. */
  method GenerateTwiceHashed(g: HashCacheKeyGenerator, domain: Bytes, descriptor: Descriptor,
                             limit: Option<RateLimit>, now: Int64, unitToDivider: Unit -> Divider)
    returns (first: CacheKey, second: CacheKey)
    modifies g.bufferPool
    ensures first == second
  {
    first := g.GenerateCacheKey(domain, descriptor, limit, now, unitToDivider);
    second := g.GenerateCacheKey(domain, descriptor, limit, now, unitToDivider);
  }

  /** The key ends in the time bucket's decimal rendering, right after the '_' that closes
      the last entry (or the domain); the bucket contains no '_', so it is everything after
      the key's last '_'. */
  lemma {:induction false} BucketIsLastComponent(prefix: Bytes, domain: Bytes, descriptor: Descriptor,
                                                 limit: RateLimit, now: Int64, unitToDivider: Unit -> Divider)
    ensures var key := HumanReadableKey(prefix, domain, descriptor, limit, now, unitToDivider);
            var t := Strconv.FormatInt(TimeBucket(now, unitToDivider(limit.limit.unit)));
            |key| > |t| && key[|key| - |t|..] == t && key[|key| - |t| - 1] == Underscore
            && Underscore !in t
            && (0 <= now ==> Strconv.AllDigits(t))
  {
    var t := Strconv.FormatInt(TimeBucket(now, unitToDivider(limit.limit.unit)));
    var head := prefix + domain + [Underscore] + EntriesPart(descriptor.entries);
    EndsWithUnderscore(prefix + domain, descriptor.entries);
    var key := head + t;
    assert key[|key| - |t|..] == t;
    assert key[|key| - |t| - 1] == head[|head| - 1];
  }

  lemma {:induction false} EndsWithUnderscore(front: Bytes, entries: seq<Entry>)
    ensures var s := front + [Underscore] + EntriesPart(entries); |s| > 0 && s[|s| - 1] == Underscore
    decreases |entries|
  {
    if entries != [] {
      var e := entries[0];
      var front' := front + [Underscore] + e.key + [Underscore] + e.value;
      assert front + [Underscore] + EntriesPart(entries) == front' + [Underscore] + EntriesPart(entries[1..]);
      EndsWithUnderscore(front', entries[1..]);
    }
  }

  /** Changing only `now`, the human-readable key stays the same exactly while the unit
      window (Go's truncated quotient) stays the same. */
  lemma KeySameIffSameWindow(prefix: Bytes, domain: Bytes, descriptor: Descriptor, limit: RateLimit,
                             now1: Int64, now2: Int64, unitToDivider: Unit -> Divider)
    ensures var d := unitToDivider(limit.limit.unit);
            HumanReadableKey(prefix, domain, descriptor, limit, now1, unitToDivider)
              == HumanReadableKey(prefix, domain, descriptor, limit, now2, unitToDivider)
            <==> TruncDiv(now1, d) == TruncDiv(now2, d)
  {
    var d := unitToDivider(limit.limit.unit);
    var head := prefix + domain + [Underscore] + EntriesPart(descriptor.entries);
    var t1 := Strconv.FormatInt(TimeBucket(now1, d));
    var t2 := Strconv.FormatInt(TimeBucket(now2, d));
    assert head + t1 == head + t2 <==> t1 == t2 by {
      if head + t1 == head + t2 {
        assert t1 == (head + t1)[|head|..];
      }
    }
    Strconv.FormatIntInjective(TimeBucket(now1, d), TimeBucket(now2, d));
    var q1, q2 := TruncDiv(now1, d), TruncDiv(now2, d);
    if q1 * d == q2 * d {
      MultiplicationCancels(q1, q2, d);
    }
  }

  lemma MultiplicationCancels(a: int, b: int, d: Divider)
    requires a * d == b * d
    ensures a == b
  {
    QuotientUnique(a * d, d, a);
    QuotientUnique(b * d, d, b);
  }

  /** Two non-negative times in the same window [k*d, (k+1)*d) give byte-identical keys from
      both generators. */
  lemma SameWindowSameKeys(prefix: Bytes, hash: Bytes -> Bytes, domain: Bytes, descriptor: Descriptor,
                           limit: Option<RateLimit>, now1: Int64, now2: Int64,
                           unitToDivider: Unit -> Divider, k: nat)
    requires limit.Some?
    requires var d := unitToDivider(limit.value.limit.unit);
             k * d <= now1 < (k + 1) * d && k * d <= now2 < (k + 1) * d
    ensures HumanReadableCacheKey(prefix, domain, descriptor, limit, now1, unitToDivider)
         == HumanReadableCacheKey(prefix, domain, descriptor, limit, now2, unitToDivider)
    ensures HashedCacheKey(prefix, hash, domain, descriptor, limit, now1, unitToDivider)
         == HashedCacheKey(prefix, hash, domain, descriptor, limit, now2, unitToDivider)
  {
    var d := unitToDivider(limit.value.limit.unit);
    QuotientOfWindow(now1, d, k);
    QuotientOfWindow(now2, d, k);
    KeySameIffSameWindow(prefix, domain, descriptor, limit.value, now1, now2, unitToDivider);
  }

  lemma QuotientOfWindow(n: int, d: Divider, k: nat)
    requires k * d <= n < (k + 1) * d
    ensures TruncDiv(n, d) == k
  {
    MulNonneg(k, d);
    assert (k + 1) * d == k * d + d;
    QuotientUnique(n, d, k);
  }

  /** With a one-minute window, now = 61, now = 90 and now = 119 share a key, while now = 119
      and now = 121 fall either side of a boundary and do not. */
  lemma MinuteWindowExample(prefix: Bytes, domain: Bytes, descriptor: Descriptor, limit: RateLimit,
                            unitToDivider: Unit -> Divider)
    requires unitToDivider(limit.limit.unit) == 60
    ensures HumanReadableKey(prefix, domain, descriptor, limit, 61, unitToDivider)
         == HumanReadableKey(prefix, domain, descriptor, limit, 90, unitToDivider)
    ensures HumanReadableKey(prefix, domain, descriptor, limit, 61, unitToDivider)
         == HumanReadableKey(prefix, domain, descriptor, limit, 119, unitToDivider)
    ensures HumanReadableKey(prefix, domain, descriptor, limit, 119, unitToDivider)
         != HumanReadableKey(prefix, domain, descriptor, limit, 121, unitToDivider)
  {
    KeySameIffSameWindow(prefix, domain, descriptor, limit, 61, 90, unitToDivider);
    KeySameIffSameWindow(prefix, domain, descriptor, limit, 61, 119, unitToDivider);
    KeySameIffSameWindow(prefix, domain, descriptor, limit, 119, 121, unitToDivider);
  }

  /** Both generators report the same per-second flag, true exactly for a SECOND unit;
      for a nil limit both return the empty key. */
  lemma GeneratorsAgreeOnFlag(prefix: Bytes, hash: Bytes -> Bytes, domain: Bytes, descriptor: Descriptor,
                              limit: Option<RateLimit>, now: Int64, unitToDivider: Unit -> Divider)
    ensures var h := HumanReadableCacheKey(prefix, domain, descriptor, limit, now, unitToDivider);
            var x := HashedCacheKey(prefix, hash, domain, descriptor, limit, now, unitToDivider);
            h.perSecond == x.perSecond
            && (h.perSecond <==> limit.Some? && limit.value.limit.unit == Second)
            && (limit.None? ==> h == x == CacheKey([], false))
  {
  }
}
