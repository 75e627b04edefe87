/** `Subscriber`: an immutable record whose `Id` is the case-insensitive hash
    of the address it was created from, or the stored id when read back. */
module Subscribers {
  import opened Wrappers
  import StringHash

  /** A `DateTime`; the core only stores and copies it, so it is opaque here. */
  datatype Timestamp = Timestamp(ticks: int)

  /** All three properties are get-only: a value never changes after construction. */
  datatype Subscriber = Subscriber(id: StringHash.Int32, email: string, subscribedDate: Timestamp)

  /** `new Subscriber(email)`: the id is the hash of the address, the address
      is kept verbatim (no trimming, no case change), the date is `now`. */
  function FromEmail(email: string, now: Timestamp): (s: Subscriber)
    ensures s.id == StringHash.SDBMLower(NonNull(email))
    ensures s.email == email && s.subscribedDate == now
  {
    Subscriber(StringHash.SDBMLower(NonNull(email)), email, now)
  }

  /** `new Subscriber(id, email, subscribedDate)`: the stored fields are kept
      as given; the id is not recomputed from the address. */
  function FromRow(id: StringHash.Int32, email: string, subscribedDate: Timestamp): (s: Subscriber)
    ensures s.id == id && s.email == email && s.subscribedDate == subscribedDate
  {
    Subscriber(id, email, subscribedDate)
  }

  /** Addresses that differ only in letter case give the same id, whenever
      and with whatever date the records were created. */
  lemma SameIdUpToCase(a: string, b: string, t: Timestamp, u: Timestamp)
    requires StringHash.SameUpToCase(a, b)
    ensures FromEmail(a, t).id == FromEmail(b, u).id
  {
    StringHash.SameUpToCaseSameHash(a, b);
  }
}
