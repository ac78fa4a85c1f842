/** Reading a human-readable cache key back into its parts. The key format has no escaping,
    so the parts are recoverable only when the domain and the entries' keys and values
    contain no '_'; UnderscoreKeysCollide shows two different requests that share a key
    otherwise. */
module CacheKeyParse {
  import opened GoTypes
  import opened Config
  import Strconv
  import opened CacheKeys

  /** The pieces of s between the separators, in order; always at least one. */
  function Split(s: Bytes, sep: Byte): (r: seq<Bytes>)
    ensures |r| > 0
  {
    if s == [] then [[]]
    else
      var rest := Split(s[1..], sep);
      if s[0] == sep then [[]] + rest else [[s[0]] + rest[0]] + rest[1..]
  }

  /** The entries' keys and values, alternating. */
  function Fields(entries: seq<Entry>): (r: seq<Bytes>)
    ensures |r| == 2 * |entries|
  {
    if entries == [] then [] else [entries[0].key, entries[0].value] + Fields(entries[1..])
  }

  function Pairs(fields: seq<Bytes>): seq<Entry>
    requires |fields| % 2 == 0
  {
    if fields == [] then [] else [Entry(fields[0], fields[1])] + Pairs(fields[2..])
  }

  datatype KeyParts = KeyParts(domain: Bytes, entries: seq<Entry>, bucket: int)

  /** Strips the prefix, splits the rest at '_' into domain, alternating keys and values,
      and the time bucket. */
  function ParseHumanReadableKey(prefix: Bytes, key: Bytes): Option<KeyParts> {
    if |key| < |prefix| || key[..|prefix|] != prefix then None
    else
      var fields := Split(key[|prefix|..], Underscore);
      var n := |fields|;
      if n % 2 == 1 then None
      else
        match Strconv.ParseInt(fields[n - 1])
        case None => None
        case Some(t) => Some(KeyParts(fields[0], Pairs(fields[1..n - 1]), t))
  }

  predicate EntriesUnderscoreFree(entries: seq<Entry>) {
    forall i :: 0 <= i < |entries| ==> Underscore !in entries[i].key && Underscore !in entries[i].value
  }

  predicate UnderscoreFree(domain: Bytes, descriptor: Descriptor) {
    Underscore !in domain && EntriesUnderscoreFree(descriptor.entries)
  }

  lemma {:induction false} SplitWithoutSeparator(a: Bytes, sep: Byte)
    requires sep !in a
    ensures Split(a, sep) == [a]
  {
    if a != [] {
      SplitWithoutSeparator(a[1..], sep);
      assert [a[0]] + a[1..] == a;
    }
  }

  lemma {:induction false} SplitAtFirstSeparator(a: Bytes, sep: Byte, b: Bytes)
    requires sep !in a
    ensures Split(a + [sep] + b, sep) == [a] + Split(b, sep)
  {
    if a == [] {
      assert (a + [sep] + b)[1..] == b;
    } else {
      assert (a + [sep] + b)[1..] == a[1..] + [sep] + b;
      SplitAtFirstSeparator(a[1..], sep, b);
      assert [a[0]] + a[1..] == a;
    }
  }

  lemma {:induction false} SplitEntries(entries: seq<Entry>, t: Bytes)
    requires Underscore !in t
    requires EntriesUnderscoreFree(entries)
    ensures Split(EntriesPart(entries) + t, Underscore) == Fields(entries) + [t]
  {
    if entries == [] {
      assert EntriesPart(entries) + t == t;
      SplitWithoutSeparator(t, Underscore);
    } else {
      var e := entries[0];
      var rest := EntriesPart(entries[1..]) + t;
      assert Underscore !in e.key && Underscore !in e.value;
      PieceThenRest(e, EntriesPart(entries[1..]), t);
      SplitAtFirstSeparator(e.key, Underscore, e.value + [Underscore] + rest);
      SplitAtFirstSeparator(e.value, Underscore, rest);
      assert EntriesUnderscoreFree(entries[1..]) by {
        forall i | 0 <= i < |entries[1..]|
          ensures Underscore !in entries[1..][i].key && Underscore !in entries[1..][i].value
        {
          assert entries[1..][i] == entries[i + 1];
        }
      }
      SplitEntries(entries[1..], t);
    }
  }

  lemma PieceThenRest(e: Entry, more: Bytes, t: Bytes)
    ensures EntryPiece(e) + more + t == e.key + [Underscore] + (e.value + [Underscore] + (more + t))
  {
  }

  lemma {:induction false} PairsOfFields(entries: seq<Entry>)
    ensures Pairs(Fields(entries)) == entries
  {
    if entries != [] {
      assert Fields(entries)[2..] == Fields(entries[1..]);
      PairsOfFields(entries[1..]);
    }
  }

  /** When no component contains '_', parsing a generated key gives back the domain, the
      entries in order and the time bucket. */
  lemma ParseGeneratedKey(prefix: Bytes, domain: Bytes, descriptor: Descriptor, limit: RateLimit,
                          now: Int64, unitToDivider: Unit -> Divider)
    requires UnderscoreFree(domain, descriptor)
    ensures ParseHumanReadableKey(prefix, HumanReadableKey(prefix, domain, descriptor, limit, now, unitToDivider))
         == Some(KeyParts(domain, descriptor.entries, TimeBucket(now, unitToDivider(limit.limit.unit))))
  {
    var bucket := TimeBucket(now, unitToDivider(limit.limit.unit));
    var t := Strconv.FormatInt(bucket);
    var tail := EntriesPart(descriptor.entries) + t;
    var key := HumanReadableKey(prefix, domain, descriptor, limit, now, unitToDivider);
    assert key == prefix + (domain + [Underscore] + tail);
    assert key[..|prefix|] == prefix;
    assert key[|prefix|..] == domain + [Underscore] + tail;
    SplitAtFirstSeparator(domain, Underscore, tail);
    SplitEntries(descriptor.entries, t);
    var fields := [domain] + (Fields(descriptor.entries) + [t]);
    assert Split(key[|prefix|..], Underscore) == fields;
    var n := |fields|;
    assert fields[1..n - 1] == Fields(descriptor.entries);
    PairsOfFields(descriptor.entries);
    Strconv.FormatIntRoundTrip(bucket);
  }

  /** Under the same condition, equal keys mean equal domains, entries and buckets. */
  lemma HumanReadableKeyInjective(prefix: Bytes, domain1: Bytes, descriptor1: Descriptor, limit1: RateLimit, now1: Int64,
                                  domain2: Bytes, descriptor2: Descriptor, limit2: RateLimit, now2: Int64,
                                  unitToDivider: Unit -> Divider)
    requires UnderscoreFree(domain1, descriptor1) && UnderscoreFree(domain2, descriptor2)
    requires HumanReadableKey(prefix, domain1, descriptor1, limit1, now1, unitToDivider)
          == HumanReadableKey(prefix, domain2, descriptor2, limit2, now2, unitToDivider)
    ensures domain1 == domain2 && descriptor1 == descriptor2
    ensures TimeBucket(now1, unitToDivider(limit1.limit.unit)) == TimeBucket(now2, unitToDivider(limit2.limit.unit))
  {
    ParseGeneratedKey(prefix, domain1, descriptor1, limit1, now1, unitToDivider);
    ParseGeneratedKey(prefix, domain2, descriptor2, limit2, now2, unitToDivider);
  }

  /** Domain "a_b_c" with no entries and domain "a" with the entry b=c give the same key. */
  lemma UnderscoreKeysCollide(prefix: Bytes, limit: RateLimit, now: Int64, unitToDivider: Unit -> Divider)
    ensures HumanReadableKey(prefix, [97, 95, 98, 95, 99], Descriptor([]), limit, now, unitToDivider)
         == HumanReadableKey(prefix, [97], Descriptor([Entry([98], [99])]), limit, now, unitToDivider)
  {
    assert EntriesPart([Entry([98], [99])]) == [98, 95, 99, 95];
  }
}
