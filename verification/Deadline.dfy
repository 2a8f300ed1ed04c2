/** When an identity ends, when its holder renews it, and when the broker warns about it
    (internal/agentca/agentca.go, internal/certinfo/certinfo.go, internal/registry/registry.go).
    Times are nanoseconds; a certificate stores whole seconds, rounded down
    (section 4.1.2.5 of RFC 5280). */
module Deadline {
  import opened GoStrings
  import opened GoDuration
  import opened Lifetime
  import opened Registry
  import opened Review

  const DEFAULT_AGENT_LIFETIME := 30 * DAY

  datatype Cert = Cert(notBefore: int, notAfter: int)

  datatype SignError = CAExpired | OutlivesCA

  function WholeSeconds(t: int): (r: int)
    ensures r <= t < r + SECOND && r % SECOND == 0
  {
    t - t % SECOND
  }

  function AgentNotAfter(caEnd: int, span: Span, now: int): Result<int, SignError> {
    if now >= caEnd then Err(CAExpired)
    else if span.Forever? then Ok(caEnd)
    else
      var d := if span.Unset? || span.d <= 0 then DEFAULT_AGENT_LIFETIME else span.d;
      var end := WholeSeconds(now + d);
      if end > caEnd then Err(OutlivesCA) else Ok(end)
  }

  /** The validity of a signed identity: a minute of skew in front. */
  function SignAgent(caEnd: int, span: Span, now: int): Result<Cert, SignError> {
    var end := AgentNotAfter(caEnd, span, now);
    if end.Err? then Err(end.error) else Ok(Cert(WholeSeconds(now - MINUTE), WholeSeconds(end.value)))
  }

  /** No identity outlives its CA, the expiry reported with it is the one it carries, and it is
      refused exactly when the CA is over or the lifetime asked for would outlive it. */
  lemma NeverOutlivesCA(caEnd: int, span: Span, now: int)
    requires caEnd % SECOND == 0
    ensures var r, end := SignAgent(caEnd, span, now), AgentNotAfter(caEnd, span, now);
            && (r.Ok? ==> r.value.notAfter <= caEnd && end == Ok(r.value.notAfter))
            && (r.Err? <==> now >= caEnd || (!span.Forever? && WholeSeconds(now + LifetimeAsked(span)) > caEnd))
  {
  }

  function LifetimeAsked(span: Span): int {
    if span.Of? && span.d > 0 then span.d else DEFAULT_AGENT_LIFETIME
  }

  /** A lifetime of a second or more gives an identity that is valid when it is issued; for every
      shorter one there is a moment at which the identity it gives has already expired. */
  lemma ValidAtIssue(caEnd: int, d: int, now: int)
    requires d > 0 && caEnd % SECOND == 0
    ensures d >= SECOND && SignAgent(caEnd, Of(d), now).Ok? ==> SignAgent(caEnd, Of(d), now).value.notAfter > now
    ensures d < SECOND ==> var r := SignAgent(2 * SECOND, Of(d), 0); r.Ok? && r.value.notAfter <= 0
  {
  }

  // ---------- renewal ----------

  /** certinfo.Lifetime: time.Time.Sub saturates. */
  function CertLifetime(c: Cert): int {
    var d := c.notAfter - c.notBefore;
    if d > MAX64 then MAX64 else if d < -TWO63 then -TWO63 else d
  }

  /** How far the floating-point product may be off two thirds of the lifetime. */
  const ROUNDING := 4096

  predicate TwoThirds(elapsed: int, lifetime: int) {
    -3 * ROUNDING <= 3 * elapsed - 2 * lifetime <= 3 * ROUNDING
  }

  function RenewAfter(c: Cert, elapsed: int): int {
    c.notBefore + elapsed
  }

  /** At least a third of the lifetime asked for, and 18 seconds, are left when renewal is due. */
  lemma LeftAtRenewal(caEnd: int, d: int, now: int, elapsed: int)
    requires 0 < d <= MAX64 && caEnd % SECOND == 0 && SignAgent(caEnd, Of(d), now).Ok?
    requires TwoThirds(elapsed, CertLifetime(SignAgent(caEnd, Of(d), now).value))
    ensures var c := SignAgent(caEnd, Of(d), now).value;
            3 * (c.notAfter - RenewAfter(c, elapsed)) >= d + 54 * SECOND
    ensures var c := SignAgent(caEnd, Of(d), now).value;
            d <= MAX64 - 61 * SECOND ==> 3 * (c.notAfter - RenewAfter(c, elapsed)) <= d + 62 * SECOND
  {
    var c := SignAgent(caEnd, Of(d), now).value;
    assert c.notAfter == WholeSeconds(now + d);
    assert d + 59 * SECOND < c.notAfter - c.notBefore < d + 61 * SECOND;
  }

  /** The report calls the agent one that is about to lock itself out, or has. */
  predicate Warned(a: Agent, states: States, now: int, silentAfter: int, warnBefore: int) {
    Rank(ConcernOf(a, states, now, silentAfter, warnBefore)) >= Rank(LockoutSoon)
  }

  /** What the broker remembers is the expiry of the identity it gave out. */
  predicate Remembered(a: Agent, states: States, c: Cert) {
    a.name in states && states[a.name].identityExpires == c.notAfter
  }

  /** The agent is heard of, not revoked, and has no device key to recover with. */
  predicate CanBeLockedOut(a: Agent, states: States) {
    && a.name in states && states[a.name].revokedAt.None? && states[a.name].lastSeen != 0
    && states[a.name].identityExpires != 0 && a.publicKey == ""
  }

  /** An agent with a lifetime of its own is never called about to lock itself out before the moment
      its certificate asks for renewal: for every lifetime, issue time and threshold. */
  lemma RenewalComesFirst(a: Agent, states: States, caEnd: int, issued: int, elapsed: int,
                          now: int, silentAfter: int, warnBefore: int)
    requires a.identityLifetime.Of? && 0 < a.identityLifetime.d <= MAX64 && caEnd % SECOND == 0
    requires SignAgent(caEnd, a.identityLifetime, issued).Ok?
    requires var c := SignAgent(caEnd, a.identityLifetime, issued).value;
             Remembered(a, states, c) && TwoThirds(elapsed, CertLifetime(c))
    requires Warned(a, states, now, silentAfter, warnBefore)
    ensures now >= RenewAfter(SignAgent(caEnd, a.identityLifetime, issued).value, elapsed)
  {
    LeftAtRenewal(caEnd, a.identityLifetime.d, issued, elapsed);
  }

  /** Exactly, with the certificate in hand: no warning before renewal is due if and only if the
      effective threshold is no more than what is left of the certificate then. */
  lemma NoEarlyWarningExactly(a: Agent, states: States, c: Cert, elapsed: int, silentAfter: int, warnBefore: int)
    requires Remembered(a, states, c) && CanBeLockedOut(a, states) && RenewAfter(c, elapsed) <= c.notAfter
    ensures (forall now | Warned(a, states, now, silentAfter, warnBefore) :: now >= RenewAfter(c, elapsed))
            <==> EffectiveWarnBefore(warnBefore, a.identityLifetime) <= c.notAfter - RenewAfter(c, elapsed) + 1
  {
    var first := c.notAfter - EffectiveWarnBefore(warnBefore, a.identityLifetime) + 1;
    if EffectiveWarnBefore(warnBefore, a.identityLifetime) > c.notAfter - RenewAfter(c, elapsed) + 1 {
      assert Warned(a, states, first, silentAfter, warnBefore);
    }
  }

  /** An agent that inherits a lifetime of d is judged by the configured threshold as it is. Up to a
      third of d it is never warned about early; from a third and 21 seconds on it always is, and for
      a d of a minute or more that is after the identity was issued. */
  lemma InheritingAgents(a: Agent, states: States, caEnd: int, d: int, issued: int, elapsed: int,
                         silentAfter: int, warnBefore: int)
    requires a.identityLifetime == Unset && 0 < d <= MAX64 - 61 * SECOND && caEnd % SECOND == 0
    requires SignAgent(caEnd, Of(d), issued).Ok?
    requires var c := SignAgent(caEnd, Of(d), issued).value;
             Remembered(a, states, c) && CanBeLockedOut(a, states) && TwoThirds(elapsed, CertLifetime(c))
    ensures var due := RenewAfter(SignAgent(caEnd, Of(d), issued).value, elapsed);
            && (3 * warnBefore <= d ==>
                  forall now | Warned(a, states, now, silentAfter, warnBefore) :: now >= due)
            && (3 * warnBefore > d + 63 * SECOND ==> Warned(a, states, due - 1, silentAfter, warnBefore))
            && (d >= MINUTE ==> due - 1 >= issued)
  {
    var c := SignAgent(caEnd, Of(d), issued).value;
    LeftAtRenewal(caEnd, d, issued, elapsed);
    assert c.notAfter == WholeSeconds(issued + d);
    assert d + 59 * SECOND < c.notAfter - c.notBefore;
  }

  /** A broker-wide lifetime of one day and a threshold of five: the agent that inherits them is
      reported as about to lock itself out in the moment it enrols. */
  lemma WarnedAtEnrolment(a: Agent, states: States, issued: int, silentAfter: int)
    requires a.identityLifetime == Unset && CanBeLockedOut(a, states) && silentAfter >= 0
    requires states[a.name].identityExpires == WholeSeconds(issued + DAY)
    ensures ConcernOf(a, states, issued, silentAfter, 5 * DAY) == LockoutSoon
    ensures ConcernOf(a.(identityLifetime := Of(DAY)), states, issued, silentAfter, 5 * DAY) != LockoutSoon
  {
    var b := a.(identityLifetime := Of(DAY));
    assert EffectiveWarnBefore(5 * DAY, b.identityLifetime) == 8 * HOUR;
  }
}
