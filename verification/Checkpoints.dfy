/** What checkpoints, delegations and approvals share: roots in text form and validity windows. */
module Checkpoints {
  import opened Wrappers
  import opened Hashing

  /** A `HashValue` string: the digest its hex spells, or text that is not of that form. */
  datatype RootText = RootText(value: HashValue) | Garbled

  function ParseRoot(text: RootText): (r: Option<HashValue>)
    ensures r.Some? ==> |r.value.digest| == DIGEST_SIZE && text == RootText(r.value)
  {
    if text.RootText? && |text.value.digest| == DIGEST_SIZE then Some(text.value) else None
  }

  /** Instants are microseconds since year 1; the last one a `datetime` can hold. */
  const MAX_INSTANT: int := 315_537_897_599_999_999
  const TICKS_PER_SECOND: int := 1_000_000

  /** A date with an offset: microseconds of local time since year 1, and the distance to UTC. */
  datatype Timestamp = Timestamp(local: int, offset: int)

  /** The UTC instant so many seconds later; None when local time leaves year 9999. */
  function After(t: Timestamp, seconds: int): Option<int> {
    var end := t.local + seconds * TICKS_PER_SECOND;
    if end > MAX_INSTANT then None else Some(end - t.offset)
  }

  /** `now > start + timedelta(seconds=ttl)`, an overflowing sum counting as expired. */
  predicate WindowExpired(start: Timestamp, ttlSeconds: int, now: int) {
    After(start, ttlSeconds).None? || now > After(start, ttlSeconds).value
  }
}
