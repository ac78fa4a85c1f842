/** The configuration types the cache-key generator reads: a resolved rate limit and the
    request descriptor it was matched against (src/config/config.go and the protobuf
    messages it refers to). */
module Config {
  import opened GoTypes

  /** The unit of a limit (RateLimitResponse_RateLimit_Unit). */
  datatype Unit = Unknown | Second | Minute | Hour | Day

  /** RateLimitResponse_RateLimit: requests allowed per unit of time. */
  datatype Limit = Limit(requestsPerUnit: Uint32, unit: Unit)

  /** config.RateLimit. The per-rule statistics handle is not modelled. */
  datatype RateLimit = RateLimit(
    fullKey: Bytes,
    limit: Limit,
    unlimited: bool,
    shadowMode: bool,
    name: Bytes,
    replacedNames: seq<Bytes>)

  /** One key/value label of a descriptor (RateLimitDescriptor_Entry). */
  datatype Entry = Entry(key: Bytes, value: Bytes)

  /** RateLimitDescriptor: an ordered list of entries. */
  datatype Descriptor = Descriptor(entries: seq<Entry>)
}
