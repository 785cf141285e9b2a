/** Normalisation of the `expiresIn` request field into the absolute,
    whole-second expiry that is stored with a poll. */
module Expiry {
  import opened Outcome

  /** The three shapes the field can arrive in.  A date string is kept only
      as the outcome of parsing it: the instant it denotes, or None when the
      parser rejects it. */
  datatype ExpiresIn =
    | DateText(parsed: Option<int>)
    | Seconds(n: int)
    | Other

  /** Largest magnitude, in milliseconds, of a valid ECMAScript time value. */
  const MaxTime: int := 8_640_000_000_000_000

  /** Lifetime of a poll whose request gave no usable `expiresIn`: 24 hours. */
  const DefaultLifetime: int := 24 * 60 * 60 * 1000

  const MillisPerSecond: int := 1000

  /** A time value a Date can hold; any other one makes the Date invalid. */
  predicate IsValidTime(t: int) {
    -MaxTime <= t <= MaxTime
  }

  /** The instant the request asks for, before the Date range check. */
  function Requested(spec: ExpiresIn, now: int): Option<int> {
    match spec
    case DateText(parsed) => parsed
    case Seconds(n) => Some(now + n * MillisPerSecond)
    case Other => Some(now + DefaultLifetime)
  }

  /** Drops the milliseconds, as rendering the instant as an ISO string cut
      after the seconds does.  Division by a positive constant rounds toward
      negative infinity, which is also what happens before 1970. */
  function TruncateToSecond(t: int): (r: int)
    ensures r % MillisPerSecond == 0
    ensures r <= t < r + MillisPerSecond
    ensures IsValidTime(t) ==> IsValidTime(r)
  {
    (t / MillisPerSecond) * MillisPerSecond
  }

  /** The expiry stored for a request, or None when the resolved instant is
      not a valid time (the request is then refused as an invalid
      expiration). */
  function Normalize(spec: ExpiresIn, now: int): (r: Option<int>)
    ensures spec.Seconds? ==> (r.Some? <==> IsValidTime(now + spec.n * MillisPerSecond))
    ensures spec.Other? ==> (r.Some? <==> IsValidTime(now + DefaultLifetime))
    ensures spec.DateText? ==> (r.Some? <==> spec.parsed.Some? && IsValidTime(spec.parsed.value))
    ensures r.Some? ==> IsValidTime(r.value) && r.value % MillisPerSecond == 0
    ensures r.Some? ==> r.value <= Requested(spec, now).value < r.value + MillisPerSecond
  {
    match Requested(spec, now)
    case None => None
    case Some(t) => if IsValidTime(t) then Some(TruncateToSecond(t)) else None
  }

  /** Any stored expiry is a fixed point of normalisation as a date: parsing
      it back and normalising again yields the same instant. */
  lemma NormalizeIdempotent(spec: ExpiresIn, now: int, later: int)
    requires Normalize(spec, now).Some?
    ensures Normalize(DateText(Normalize(spec, now)), later) == Normalize(spec, now)
  {
  }
}
