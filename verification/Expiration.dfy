/** Expiration policies over wrapping 64-bit time stamps (providers/expiration.go).  Clocks are in nanoseconds. */
module Expiration {
  import opened Common

  const SECOND: int := 1_000_000_000

  /** maxAge is in seconds. */
  datatype Policy = Policy(maxAge: Int64, checkMaxAge: bool, checkExpClaim: bool)

  const OIDC := Policy(0, false, true)
  const MAX_AGE_24HOURS := Policy(86_400, true, false)
  const MAX_AGE_48HOURS := Policy(172_800, true, false)
  const MAX_AGE_1WEEK := Policy(604_800, true, false)
  const NEVER_EXPIRE := Policy(0, false, false)

  /** Two's complement addition. */
  function WrappingAdd(a: Int64, b: Int64): Int64 {
    var sum := a + b;
    if sum >= TWO_TO_THE_63 then sum - 2 * TWO_TO_THE_63
    else if sum < -TWO_TO_THE_63 then sum + 2 * TWO_TO_THE_63
    else sum
  }

  predicate VerifyNotExpired(expiration: Int64, now: int) {
    expiration != 0 && !(expiration < 0) && now < expiration * SECOND
  }

  predicate CheckMaxAge(issuedAt: Int64, maxAge: Int64, now: int) {
    && issuedAt != 0
    && !(issuedAt < 0)
    && maxAge > 0
    && !(WrappingAdd(issuedAt, maxAge) < issuedAt)
    && now < WrappingAdd(issuedAt, maxAge) * SECOND
  }

  predicate CheckExpiration(policy: Policy, exp: Int64, iat: Int64, now: int) {
    && (policy.checkExpClaim ==> VerifyNotExpired(exp, now))
    && (policy.checkMaxAge ==> CheckMaxAge(iat, policy.maxAge, now))
  }

  /** The overflow test is exact: acceptance means the true sum fits and lies in the future. */
  lemma MaxAgeExact(issuedAt: Int64, maxAge: Int64, now: int)
    ensures CheckMaxAge(issuedAt, maxAge, now)
       <==> && issuedAt > 0 && maxAge > 0
            && issuedAt + maxAge < TWO_TO_THE_63
            && now < (issuedAt + maxAge) * SECOND
  {}

  /** Raising the maximal age keeps a token acceptable if and only if the later expiry still fits. */
  lemma LongerAge(issuedAt: Int64, maxAge: Int64, longer: Int64, now: int)
    requires CheckMaxAge(issuedAt, maxAge, now) && maxAge <= longer
    ensures CheckMaxAge(issuedAt, longer, now) <==> issuedAt + longer < TWO_TO_THE_63
  {
    MaxAgeExact(issuedAt, maxAge, now);
    MaxAgeExact(issuedAt, longer, now);
  }

  /** A token accepted now was accepted at every earlier time. */
  lemma AcceptedEarlier(policy: Policy, exp: Int64, iat: Int64, now: int, earlier: int)
    requires CheckExpiration(policy, exp, iat, now) && earlier <= now
    ensures CheckExpiration(policy, exp, iat, earlier)
  {}

  /** Under the policies of the library: a token accepted for 24 hours is accepted for 48 hours and for a week exactly
      as far as the later expiry fits. */
  lemma LongerPolicies(exp: Int64, iat: Int64, now: int)
    requires CheckExpiration(MAX_AGE_24HOURS, exp, iat, now)
    ensures CheckExpiration(MAX_AGE_48HOURS, exp, iat, now) <==> iat + MAX_AGE_48HOURS.maxAge < TWO_TO_THE_63
    ensures CheckExpiration(MAX_AGE_1WEEK, exp, iat, now) <==> iat + MAX_AGE_1WEEK.maxAge < TWO_TO_THE_63
  {
    LongerAge(iat, MAX_AGE_24HOURS.maxAge, MAX_AGE_48HOURS.maxAge, now);
    LongerAge(iat, MAX_AGE_24HOURS.maxAge, MAX_AGE_1WEEK.maxAge, now);
  }

  /** The policies with a maximal age accept exactly positive issue times less than that many days ago, as long as the
      expiry fits. */
  lemma PoliciesWithAge(exp: Int64, iat: Int64, now: int)
    ensures CheckExpiration(MAX_AGE_24HOURS, exp, iat, now) <==> YoungerThan(iat, 1, now)
    ensures CheckExpiration(MAX_AGE_48HOURS, exp, iat, now) <==> YoungerThan(iat, 2, now)
    ensures CheckExpiration(MAX_AGE_1WEEK, exp, iat, now) <==> YoungerThan(iat, 7, now)
  {
    MaxAgeExact(iat, MAX_AGE_24HOURS.maxAge, now);
    MaxAgeExact(iat, MAX_AGE_48HOURS.maxAge, now);
    MaxAgeExact(iat, MAX_AGE_1WEEK.maxAge, now);
  }

  predicate YoungerThan(iat: Int64, days: nat, now: int) {
    var expiry := iat + days * 24 * 60 * 60;
    0 < iat && expiry < TWO_TO_THE_63 && now < expiry * 1_000_000_000
  }

  /** The policies without a maximal age: the claim decides, or nothing does. */
  lemma PoliciesWithoutAge(exp: Int64, iat: Int64, now: int)
    ensures CheckExpiration(OIDC, exp, iat, now) <==> exp > 0 && now < exp * 1_000_000_000
    ensures CheckExpiration(NEVER_EXPIRE, exp, iat, now)
  {}
}
