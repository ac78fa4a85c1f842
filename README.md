# Rate-limit cache keys, modelled in Dafny

This project models the cache-key generator of the rate-limit service
(`src/limiter/cache_key.go`). For a matched limit, the generator turns a domain, a
request descriptor and the current Unix time into the key of a counter in the shared
store. It writes the following into a reusable byte buffer:

- the configured prefix;
- the domain, then `_`;
- for each descriptor entry, in order, its key, `_`, its value and `_`;
- the decimal start of the current unit window, `(now/divider)*divider`.

The human-readable generator returns that string. The hashing generator returns an
injected hash of the same bytes. Both return an empty key for a nil limit, and both set
`PerSecond` exactly when the limit's unit is SECOND.

Modules that model the program and the library calls it makes:

- `GoTypes`: bytes, byte strings and Go integer widths. A Go `string` is a byte string here.
- `Config`: the rate-limit and descriptor shapes the generator reads.
- `Strconv`: `strconv.FormatInt(n, 10)`.
- `Hex`: `hex.EncodeToString`.
- `ByteBuffer`: the part of `bytes.Buffer` in use. It is a class whose `data` field the methods update.
- `CacheKeys`: the key layout, the time bucket, the buffer-filling method, and the two generator classes.
- `Hashes`: the byte layout and hex encoding of each offered hash function.

Reference inverses that exist only in the model, added so that round trips and
injectivity can be stated. The program has no key parser and calls no decoder:

- `CacheKeyParse`: a reader for human-readable keys.
- `Strconv.ParseInt` and `Strconv.DigitsValue`: a decimal parser.
- `Hex.DecodeString` and `Hex.HexValue`: a hex decoder.
- `Hashes.FromLittleEndian` and `Hashes.FromBigEndian`: readers of packed integers.

Go's `/` truncates toward zero, so the model uses `TruncDiv` and covers negative `now`
as well. For `now >= 0` the bucket is the window start `floor(now/divider)*divider`. For
negative `now` the code rounds toward zero rather than down. The model follows the code.

The human-readable format does not escape `_`. Keys can be read back, and are
injective, only when the domain and the entries' keys and values contain no `_`
(`CacheKeyParse.ParseGeneratedKey`, `CacheKeyParse.HumanReadableKeyInjective`). Without
that condition, domain `a_b_c` with no entries and domain `a` with entry `b=c` share a key
(`CacheKeyParse.UnderscoreKeysCollide`).

`utils.UnitToDivider` is not part of this model. Every operation that needs it takes a
parameter `unitToDivider: Unit -> Divider`, where a `Divider` is a positive int64. The
digest algorithms are parameters too.

## Model

| member | source | states |
|---|---|---|
| `CacheKeys.HumanReadableCacheKey` | src/limiter/cache_key.go:76-96 | the key is empty exactly when the limit is nil; `perSecond` holds exactly when the limit's unit is SECOND |
| `CacheKeys.HashedCacheKey` | src/limiter/cache_key.go:123-141 | nil limit gives `("", false)`; otherwise the key is `hash` of the human-readable generator's key, and `perSecond` equals that generator's flag |
| `CacheKeys.TruncDiv` | src/limiter/cache_key.go:66-67 | Go's integer division: the quotient's magnitude is `|a| / d`, and a nonzero quotient has the sign of `a` |
| `CacheKeys.TimeBucket` | src/limiter/cache_key.go:66-67 | the bucket is a multiple of the divider; for `now >= 0`, `0 <= b <= now < b + d`; for `now < 0`, `b - d < now <= b <= 0`; the bucket fits in int64 |
| `CacheKeys.IsPerSecondLimit` | src/limiter/cache_key.go:28-30 | a definition with no contract of its own: true for SECOND only; `CacheKeys.HumanReadableCacheKey` and `CacheKeys.GeneratorsAgreeOnFlag` state its effect on the flag |
| `CacheKeys.HumanReadableKey` | src/limiter/cache_key.go:53-68 | a definition with no contract of its own: the key layout (prefix, domain, `_`, each entry's `key_value_` in input order, decimal bucket); the loop in `CacheKeys.MakeHumanReadableCacheKey` is proved equal to it, and `CacheKeyParse.ParseGeneratedKey` inverts it |
| `CacheKeys.MakeHumanReadableCacheKey` | src/limiter/cache_key.go:53-68 | appends exactly the key layout (prefix, domain, `_`, each entry's key `_` value `_` in input order, decimal bucket) to whatever the buffer held |
| `CacheKeys.HumanReadableCacheKeyGenerator.constructor` | src/limiter/cache_key.go:42-51 | keeps the prefix and gives the generator its own buffer |
| `CacheKeys.HumanReadableCacheKeyGenerator.GenerateCacheKey` | src/limiter/cache_key.go:76-96 | returns `HumanReadableCacheKey` of the arguments whatever the pooled buffer held before; a nil limit leaves the buffer untouched; otherwise the buffer ends holding exactly the key |
| `CacheKeys.HashCacheKeyGenerator.constructor` | src/limiter/cache_key.go:105-115 | keeps the prefix and the hash function and gives the generator its own buffer |
| `CacheKeys.HashCacheKeyGenerator.GenerateCacheKey` | src/limiter/cache_key.go:123-141 | returns `HashedCacheKey` of its arguments whatever the buffer held before; the buffer ends holding the human-readable key that was hashed |
| `CacheKeys.GenerateTwice` | src/limiter/cache_key.go:86-90 | two calls in a row with equal arguments on one human-readable generator return equal keys, whatever the buffer held |
| `CacheKeys.GenerateTwiceHashed` | src/limiter/cache_key.go:132-136 | two calls in a row with equal arguments on one hashing generator return equal keys |
| `CacheKeys.KeyLayout` | src/limiter/cache_key.go:55-67 | the bytes written in sequence, with the loop's entries and the final bucket, make up the buffer's old contents followed by the key layout |
| `CacheKeys.EntriesPartAppend` | src/limiter/cache_key.go:59-64 | rendering one more entry appends that entry's `key_value_` to the rendering |
| `CacheKeys.BucketIsLastComponent` | src/limiter/cache_key.go:57-67 | the key ends with the bucket's decimal text right after a `_`, the text has no `_`, and for `now >= 0` it is all digits |
| `CacheKeys.KeySameIffSameWindow` | src/limiter/cache_key.go:66-67 | changing only `now`, the human-readable key stays equal exactly when the truncated quotient `now/divider` stays equal |
| `CacheKeys.SameWindowSameKeys` | src/limiter/cache_key.go:66-67 | two non-negative times in the same window `[k*d, (k+1)*d)` give byte-identical keys from both generators |
| `CacheKeys.MinuteWindowExample` | src/limiter/cache_key.go:66-67 | with a 60-second divider, times 61, 90 and 119 share a key, and times 119 and 121 do not |
| `CacheKeys.QuotientOfWindow` | src/limiter/cache_key.go:66 | a non-negative time in window `k` has truncated quotient `k` |
| `CacheKeys.GeneratorsAgreeOnFlag` | src/limiter/cache_key.go:28-30 | both generators report the same `perSecond`, which is true exactly for a SECOND unit; both give `("", false)` for a nil limit |
| `CacheKeyParse.ParseGeneratedKey` | src/limiter/cache_key.go:55-67 | when no component contains `_`, parsing a generated key returns its domain, its entries in order and its time bucket |
| `CacheKeyParse.HumanReadableKeyInjective` | src/limiter/cache_key.go:55-67 | under the same condition, equal keys imply equal domains, equal descriptors and equal buckets |
| `CacheKeyParse.UnderscoreKeysCollide` | src/limiter/cache_key.go:56-63 | domain `a_b_c` with no entries and domain `a` with entry `b=c` produce the same key |
| `CacheKeyParse.SplitAtFirstSeparator` | src/limiter/cache_key.go:57 | splitting at `_` takes apart a `_`-free piece followed by a `_` |
| `CacheKeyParse.SplitEntries` | src/limiter/cache_key.go:59-64 | the rendered entries followed by the bucket split back into the alternating keys and values, then the bucket |
| `Strconv.FormatInt` | src/limiter/cache_key.go:67 | the rendering is non-empty and has no `_`; it is all digits exactly for `n >= 0`; a negative number starts with `-` followed by digits |
| `Strconv.FormatNat` | src/limiter/cache_key.go:67 | the digits are non-empty, all decimal, with no leading zero |
| `Strconv.FormatIntRoundTrip` | src/limiter/cache_key.go:67 | parsing the rendering of `n` gives back `n` |
| `Strconv.FormatIntInjective` | src/limiter/cache_key.go:67 | two integers have the same rendering exactly when they are equal |
| `Hex.EncodeToString` | src/limiter/cache_key.go:156 | two lower-case hex characters per byte |
| `Hex.DecodeEncode` | src/limiter/cache_key.go:156 | decoding the hex encoding of any bytes gives them back |
| `Hex.EncodeAppend` | src/limiter/cache_key.go:160 | hex encoding distributes over concatenation |
| `ByteBuffer.Buffer.constructor` | src/limiter/cache_key.go:47 | a new buffer is empty |
| `ByteBuffer.Buffer.Contents` | src/limiter/cache_key.go:93 | a definition with no contract of its own: `b.String()` and `b.Bytes()` read the buffer's contents without changing them |
| `ByteBuffer.Buffer.Reset` | src/limiter/cache_key.go:88 | the buffer is empty afterwards, whatever it held |
| `ByteBuffer.Buffer.WriteString` | src/limiter/cache_key.go:55 | appends the string's bytes |
| `ByteBuffer.Buffer.WriteByte` | src/limiter/cache_key.go:57 | appends one byte |
| `Hashes.PutUint64` | src/limiter/cache_key.go:154-155 | writes `v`'s eight bytes, least significant first, at `x[off..off+8]` and leaves the rest of the array unchanged |
| `Hashes.LittleEndianRoundTrip` | src/limiter/cache_key.go:154-155 | reading the little-endian bytes of a value that fits gives the value back |
| `Hashes.FarmHashOf` | src/limiter/cache_key.go:151-157 | the result is 32 hex characters that decode to 16 bytes: `lo` little-endian in bytes 0-7, `hi` in bytes 8-15 |
| `Hashes.FarmHash` | src/limiter/cache_key.go:151-157 | packing into the 16-byte array in place and hex-encoding it gives `FarmHashOf` of the buffer's bytes, 32 characters long |
| `Hashes.FarmHashedKeysAreFixedWidth` | src/limiter/cache_key.go:136-138 | with FarmHash as the hash, every hashed key of a matched limit is 32 characters long, however long the inputs |
| `Hashes.MurMurHash3` | src/limiter/cache_key.go:143-145 | the result is twice as long as the digest and decodes back to the digest |
| `Hashes.CityHash` | src/limiter/cache_key.go:147-149 | the same, for the digest of the bytes and their length (`b.Len()`, which is `|key|` here) cut to 32 bits |
| `Hashes.FNVHash` | src/limiter/cache_key.go:163-167 | the same, for the FNV-128 digest |
| `Hashes.CRC32HashAsWritten` | src/limiter/cache_key.go:159-161 | as written, the output is `2*|key| + 8` characters long and decodes to the key followed by four zero bytes |
| `Hashes.CRC32AsWrittenKeepsKey` | src/limiter/cache_key.go:159-161 | as written, the output is the hex of the key followed by `00000000` |
| `Hashes.CRC32AsWrittenExample` | src/limiter/cache_key.go:159-161 | as written, the key `a` hashes to `6100000000` |
| `Hashes.CRC32Hash` | src/limiter/cache_key.go:159-161 | corrected: 8 hex characters that decode to the 4-byte big-endian CRC-32 of the key |
| `Hashes.CRC32HashedKeysAreFixedWidth` | src/limiter/cache_key.go:136-138 | with the corrected CRC32Hash as the hash, every hashed key of a matched limit is 8 characters long |
| `Hashes.BigEndianRoundTrip` | src/limiter/cache_key.go:160 | reading the big-endian bytes of a value that fits gives the value back |

## Findings

| source | as written | input that shows it | evidently intended | confidence | as-written member | corrected member |
|---|---|---|---|---|---|---|
| src/limiter/cache_key.go:159-161 | `crc32.NewIEEE().Sum(b.Bytes())` appends the checksum of the new, empty digest (0, as four big-endian bytes) to the key bytes. So the "hash" is the key's own hex followed by `00000000`. It grows with the key and compacts nothing. | key `a` gives `6100000000`, not an 8-character CRC-32 of `a` | the hex of the 4-byte big-endian IEEE CRC-32 of the key bytes, 8 characters for every key | high; not executed | `Hashes.CRC32HashAsWritten` | `Hashes.CRC32Hash` |

## Left out

- The `sync.Pool` of buffers is concurrency and performance plumbing. Each generator owns one `Buffer` instead. Every call takes it and resets it, as a pooled buffer would be. Sharing between concurrent calls is not modelled.
- The digest algorithms (MurmurHash3, CityHash, farm, CRC-32, FNV-128) are library code. Each is a function parameter. For CRC-32, the fact used is that a fresh digest's checksum is 0.
- `utils.UnitToDivider` is not part of this model. It is a parameter returning a positive int64 for each unit.
- A nil descriptor, a nil element of `descriptor.Entries`, or a nil `Limit` inside a non-nil rate limit, makes the Go code panic. All three are non-nullable values here, so those panics are not modelled.
- `RateLimit.Stats` is not modelled, because cache keys never read it. The field `Replaces` is named `replacedNames`, because `replaces` is a Dafny keyword.
- `Config.Unit` lists UNKNOWN, SECOND, MINUTE, HOUR and DAY. Other values of the protobuf enum would behave like any non-SECOND unit.
- The `(n, err)` results of `WriteString` and `WriteByte` are not modelled, because the source ignores them. So is the buffer's growth and its out-of-memory panic.
- The hash field receives the `*bytes.Buffer` in Go. Here it is a function of the buffer's bytes. The hash functions shown only read `b.Bytes()` and `b.Len()`.
- `binary.LittleEndian.PutUint64` is unrolled in the standard library. `Hashes.PutUint64` writes the same eight bytes with a loop.
- `Hashes.FarmHashOf`, `Hashes.MurMurHash3`, `Hashes.CityHash`, `Hashes.FNVHash`: no output width is claimed beyond what the digest's length gives. Only FarmHash packs a fixed 16 bytes itself.
- `CacheKeys.KeySameIffSameWindow` covers the human-readable key only. Hashed keys of different windows can still collide, because the hash is arbitrary.
- `src/config/config.go` is otherwise out: it declares the matcher and loader interfaces, the YAML shapes and `RateLimitDiff.String`, but holds no matcher, loader or diff logic.
- The benchmark in `src/limiter/cache_key_test.go` makes no assertions. `src/service_cmd/main.go` is process start-up.
