/** The expiry-date rule of scan_worker_card: with both dates read, the later one; with only
    the end of the validity period read, that one; otherwise the expiry answer as normalised. */
module Expiry {
  import opened Wrappers
  import opened Dates

  function ResolveExpiry(validityTo: int, validTo: bool, expiry: int, validExpiry: bool): (r: int)
    ensures validTo && validExpiry ==> r >= validityTo && r >= expiry && (r == validityTo || r == expiry)
    ensures validTo && !validExpiry ==> r == validityTo
    ensures !validTo ==> r == expiry
  {
    if validTo && validExpiry then
      if expiry >= validityTo then expiry else validityTo
    else if validTo then
      validityTo
    else
      expiry
  }

  /** The end of the validity period is `a` and the expiry `b`, both read: the stored expiry is
      the timestamp of the later of the two dates. */
  lemma LaterDateWins(a: Date, b: Date)
    requires ValidDate(a) && ValidDate(b)
    ensures ResolveExpiry(Timestamp(a), true, Timestamp(b), true) == Timestamp(if Before(a, b) then b else a)
  {
    TimestampOrder(a, b);
  }

  /** Neither answer holds a date: the current time is stored. */
  lemma NeitherDateRead(to: Option<string>, exp: Option<string>, now: int, t1: int, t2: int)
    requires ExtractDate(to, now) == Ok((t1, false)) && ExtractDate(exp, now) == Ok((t2, false))
    ensures ResolveExpiry(t1, false, t2, false) == now
  {
  }

  /** Once the end of the validity period has been read, the stored expiry never precedes it. */
  lemma NeverBeforeValidityEnd(validityTo: int, expiry: int, validExpiry: bool)
    ensures ResolveExpiry(validityTo, true, expiry, validExpiry) >= validityTo
  {
  }
}
