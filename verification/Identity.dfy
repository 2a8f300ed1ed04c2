/** An agent's identity on its disk, and how a host gets one back
    (internal/agent/identity.go, cmd/flying-certs-agent/main.go). */
module Identity {
  import opened GoStrings

  /** An identity certificate: the key it was made for, when to renew it and when it ends. */
  datatype Cert = Cert(key: nat, renewAt: int, notAfter: int)

  /** agent.crt, agent.key, broker-ca.crt and the device key. */
  datatype Files = Files(cert: Option<Cert>, key: Option<nat>, ca: bool, device: bool)

  datatype IdError = NotEnrolled | NoKey | NoCA | Unusable | NoDeviceKey | CannotVerifyBroker | BrokerRefused | Stopped

  /** LoadIdentity */
  function Load(f: Files): Result<Cert, IdError> {
    if f.cert.None? then Err(NotEnrolled)
    else if f.key.None? then Err(NoKey)
    else if !f.ca then Err(NoCA)
    else if f.cert.value.key != f.key.value then Err(Unusable)
    else Ok(f.cert.value)
  }

  /** A SaveIdentity as far as it got: `done` of its writes are on the disk. */
  datatype Attempt = Attempt(key: nat, cert: Cert, withCA: bool, done: nat)

  function Written(f: Files, a: Attempt): Files {
    Files(if a.done >= 2 then Some(a.cert) else f.cert,
          if a.done >= 1 then Some(a.key) else f.key,
          f.ca || (a.withCA && a.done >= 3),
          f.device)
  }

  predicate Complete(a: Attempt) {
    a.done >= if a.withCA then 3 else 2
  }

  /** What the broker answers to a request with a fresh key, and how far the saving gets. */
  datatype Reply = Refuses | Issues(cert: Cert, withCA: bool, done: nat)

  function Saved(f: Files, key: nat, r: Reply): (Files, Result<Cert, IdError>) {
    if r.Refuses? then (f, Err(BrokerRefused))
    else
      var a := Attempt(key, r.cert, r.withCA, r.done);
      var g := Written(f, a);
      (g, if Complete(a) then Load(g) else Err(Stopped))
  }

  /** enrolWithDeviceKey; `given` says that the broker's CA was named on the command line. */
  function EnrolSpec(f: Files, given: bool, key: nat, r: Reply): (Files, Result<Cert, IdError>) {
    if !f.device then (f, Err(NoDeviceKey))
    else if !given && !f.ca then (f, Err(CannotVerifyBroker))
    else Saved(f, key, r)
  }

  /** ensureIdentity; the bool says that the identity was just issued. */
  function EnsureSpec(f: Files, now: int, key: nat, r: Reply): (Files, Result<(Cert, bool), IdError>) {
    var id := Load(f);
    if id.Ok? && now < id.value.notAfter then (f, Ok((id.value, false)))
    else if id.Err? && id.error != NotEnrolled then (f, Err(id.error))
    else if !f.device then (f, Err(if id.Ok? then NoDeviceKey else NotEnrolled))
    else if !f.ca then (f, Err(CannotVerifyBroker))
    else
      var (g, res) := EnrolSpec(f, false, key, r);
      if res.Err? then (g, Err(res.error))
      else
        var again := Load(g);
        (g, if again.Ok? then Ok((again.value, true)) else Err(again.error))
  }

  class Host {
    var cert: Option<Cert>
    var key: Option<nat>
    var ca: bool
    var device: bool

    constructor (f: Files)
      ensures Value() == f
    {
      cert, key, ca, device := f.cert, f.key, f.ca, f.device;
    }

    function Value(): Files
      reads this
    {
      Files(cert, key, ca, device)
    }

    method LoadIdentity() returns (r: Result<Cert, IdError>)
      ensures r == Load(Value())
    {
      if cert.None? { return Err(NotEnrolled); }
      if key.None? { return Err(NoKey); }
      if !ca { return Err(NoCA); }
      if cert.value.key != key.value { return Err(Unusable); }
      r := Ok(cert.value);
    }

    /** Three writes in this order, the third only if the answer brought a CA. */
    method SaveIdentity(a: Attempt) returns (r: Result<Cert, IdError>)
      modifies this
      ensures Value() == Written(old(Value()), a)
      ensures r == if Complete(a) then Load(Value()) else Err(Stopped)
    {
      if a.done < 1 { return Err(Stopped); }
      key := Some(a.key);
      if a.done < 2 { return Err(Stopped); }
      cert := Some(a.cert);
      if a.withCA {
        if a.done < 3 { return Err(Stopped); }
        ca := true;
      }
      r := LoadIdentity();
    }

    method EnrolWithDeviceKey(given: bool, newKey: nat, reply: Reply) returns (r: Result<Cert, IdError>)
      modifies this
      ensures (Value(), r) == EnrolSpec(old(Value()), given, newKey, reply)
    {
      if !device { return Err(NoDeviceKey); }
      if !given && !ca { return Err(CannotVerifyBroker); }
      if reply.Refuses? { return Err(BrokerRefused); }
      r := SaveIdentity(Attempt(newKey, reply.cert, reply.withCA, reply.done));
    }

    method EnsureIdentity(now: int, newKey: nat, reply: Reply) returns (r: Result<(Cert, bool), IdError>)
      modifies this
      ensures (Value(), r) == EnsureSpec(old(Value()), now, newKey, reply)
    {
      var id := LoadIdentity();
      if id.Ok? && now < id.value.notAfter { return Ok((id.value, false)); }
      if id.Err? && id.error != NotEnrolled { return Err(id.error); }
      if !device { return Err(if id.Ok? then NoDeviceKey else NotEnrolled); }
      if !ca { return Err(CannotVerifyBroker); }
      var enrolled := EnrolWithDeviceKey(false, newKey, reply);
      if enrolled.Err? { return Err(enrolled.error); }
      var again := LoadIdentity();
      if again.Err? { return Err(again.error); }
      r := Ok((again.value, true));
    }
  }

  // ---------- which states heal ----------

  /** A certificate whose key is not there. */
  predicate Torn(f: Files) {
    f.cert.Some? && f.key != Some(f.cert.value.key)
  }

  /** The broker signs what it was asked to sign, and the answer is stored. */
  predicate Willing(key: nat, r: Reply) {
    r.Issues? && r.cert.key == key && Complete(Attempt(key, r.cert, r.withCA, r.done))
  }

  /** With a device key and a willing broker, a host has an identity after ensureIdentity, at any time
      and from any state, exactly when it holds the broker's CA and its identity is not torn. */
  lemma EnsureSucceedsExactly(f: Files, now: int, key: nat, r: Reply)
    requires f.device && Willing(key, r)
    ensures EnsureSpec(f, now, key, r).1.Ok? <==> f.ca && !Torn(f)
    ensures EnsureSpec(f, now, key, r).1.Ok? ==>
              Load(EnsureSpec(f, now, key, r).0) == Ok(EnsureSpec(f, now, key, r).1.value.0)
  {
  }

  /** A certificate with its key and the broker's CA beside it, and not over yet. */
  predicate Usable(f: Files, now: int) {
    f.cert.Some? && f.key == Some(f.cert.value.key) && f.ca && now < f.cert.value.notAfter
  }

  /** What ensureIdentity gives back is usable: either what the host holds, which is not over, or else the
      certificate just issued for the key just made, and then those two are what the host holds. */
  lemma EnsureReturnsUsable(f: Files, now: int, key: nat, r: Reply)
    ensures var (g, res) := EnsureSpec(f, now, key, r);
            && (Usable(f, now) ==> res == Ok((f.cert.value, false)) && g == f)
            && (!Usable(f, now) && res.Ok? ==>
                  && r.Issues? && res == Ok((r.cert, true)) && r.cert.key == key
                  && g == Files(Some(r.cert), Some(key), true, f.device))
  {
  }

  /** A host without a usable identity gets a new one exactly if it has the device key, the broker's CA and,
      if any, a certificate whose key is there, and the broker signs for the new key and all is stored. */
  lemma EnsureReplacesExactly(f: Files, now: int, key: nat, r: Reply)
    requires !Usable(f, now)
    ensures EnsureSpec(f, now, key, r).1.Ok? <==>
            && f.device && f.ca && (f.cert.Some? ==> f.key == Some(f.cert.value.key))
            && r.Issues? && r.cert.key == key && r.done >= if r.withCA then 3 else 2
  {
  }

  /** One call of `run`: the identity, then its renewal if it is due. */
  datatype Run = Run(now: int, key: nat, reply: Reply, renewKey: nat, renewal: Reply)

  function RunSpec(f: Files, u: Run): Files {
    var (g, id) := EnsureSpec(f, u.now, u.key, u.reply);
    if id.Ok? && !id.value.1 && u.now >= id.value.0.renewAt then Saved(g, u.renewKey, u.renewal).0 else g
  }

  /** A run leaves a usable identity alone until its renewal is due; from then on the renewed certificate
      and its key take its place as soon as both are stored, and a renewal refused changes nothing. */
  lemma RunRenews(f: Files, u: Run)
    requires Usable(f, u.now)
    ensures u.now < f.cert.value.renewAt ==> RunSpec(f, u) == f
    ensures u.now >= f.cert.value.renewAt && u.renewal.Issues? && u.renewal.done >= 2 ==>
              RunSpec(f, u) == Files(Some(u.renewal.cert), Some(u.renewKey), true, f.device)
    ensures u.renewal.Refuses? || u.renewal.done == 0 ==> RunSpec(f, u) == f
  {
  }

  function RunAll(f: Files, us: seq<Run>): Files {
    if us == [] then f else RunSpec(RunAll(f, us[..|us| - 1]), us[|us| - 1])
  }

  /** No number of runs gets a host out of a torn state, whatever the time and the broker's answers. */
  lemma {:induction false} TornStaysTorn(f: Files, us: seq<Run>, now: int, key: nat, r: Reply)
    requires Torn(f)
    ensures RunAll(f, us) == f && EnsureSpec(f, now, key, r).1.Err?
  {
    if us != [] { TornStaysTorn(f, us[..|us| - 1], now, key, r); }
  }

  /** The device key does: enrolling with it succeeds from every state in which the broker's CA is
      stored, or is given and comes with the answer. */
  lemma EnrolRecovers(f: Files, given: bool, key: nat, r: Reply)
    requires f.device && Willing(key, r) && (f.ca || (given && r.withCA))
    ensures EnrolSpec(f, given, key, r).1 == Ok(r.cert)
    ensures !Torn(EnrolSpec(f, given, key, r).0) && EnrolSpec(f, given, key, r).0.ca
  {
  }

  /** A bootstrap token is only spent when there is nothing, and is no use to a torn host. */
  function TokenEnrolSpec(f: Files, key: nat, r: Reply): (Files, Result<Cert, IdError>) {
    var id := Load(f);
    if id.Ok? then (f, id)
    else if id.error != NotEnrolled then (f, Err(id.error))
    else Saved(f, key, r)
  }

  /** A host with nothing is given what the broker issues for its new key; one with an identity keeps it. */
  lemma TokenEnrolsTheNew(f: Files, key: nat, r: Reply)
    requires r.Issues? && r.cert.key == key && r.withCA && r.done >= 3
    ensures f.cert.None? ==> TokenEnrolSpec(f, key, r) == (Files(Some(r.cert), Some(key), true, f.device), Ok(r.cert))
    ensures f.cert.Some? ==> TokenEnrolSpec(f, key, r).0 == f
  {
  }

  lemma TokenDoesNotRecover(f: Files, key: nat, r: Reply)
    requires Torn(f)
    ensures TokenEnrolSpec(f, key, r).0 == f && TokenEnrolSpec(f, key, r).1.Err?
  {
  }

  // ---------- which states are reached ----------

  /** Every identity has a key of its own, and the certificate that was issued for it. */
  ghost predicate Genuine(h: seq<Attempt>) {
    && (forall i | 0 <= i < |h| :: h[i].cert.key == h[i].key)
    && (forall i, j | 0 <= i < j < |h| :: h[i].key != h[j].key)
  }

  function Over(ca: bool, device: bool, h: seq<Attempt>): Files {
    if h == [] then Files(None, None, ca, device)
    else Written(Over(ca, device, h[..|h| - 1]), h[|h| - 1])
  }

  /** The n-th attempt wrote its key over an existing certificate and stopped, and nothing came after. */
  predicate StoppedOver(h: seq<Attempt>, n: nat) {
    && n < |h| && h[n].done == 1
    && (exists i | 0 <= i < n :: h[i].done >= 2)
    && (forall j | n < j < |h| :: h[j].done == 0)
  }

  lemma {:induction false} KeyAndCert(ca: bool, device: bool, h: seq<Attempt>) returns (k: int, c: int)
    ensures -1 <= c <= k < |h|
    ensures var f := Over(ca, device, h);
            && (if k < 0 then f.key == None else f.key == Some(h[k].key) && h[k].done >= 1)
            && (if c < 0 then f.cert == None else f.cert == Some(h[c].cert) && h[c].done >= 2)
            && (forall j | k < j < |h| :: h[j].done == 0)
            && (forall j | c < j < |h| :: h[j].done < 2)
    decreases |h|
  {
    k, c := -1, -1;
    if h != [] {
      var n := |h| - 1;
      k, c := KeyAndCert(ca, device, h[..n]);
      assert forall j | 0 <= j < n :: h[..n][j] == h[j];
      if h[n].done >= 1 { k := n; }
      if h[n].done >= 2 { c := n; }
    }
  }

  /** After any history of saves, interrupted anywhere, an identity is torn exactly when the last save to
      write at all stopped between key and certificate, over a certificate that was there. */
  lemma TornExactly(ca: bool, device: bool, h: seq<Attempt>)
    requires Genuine(h)
    ensures Torn(Over(ca, device, h)) <==> exists n :: StoppedOver(h, n)
  {
    var k, c := KeyAndCert(ca, device, h);
    if Torn(Over(ca, device, h)) {
      assert c >= 0 && k != c;
      assert StoppedOver(h, k);
    }
    if exists n :: StoppedOver(h, n) {
      var n :| StoppedOver(h, n);
      var i :| 0 <= i < n && h[i].done >= 2;
      assert k == n && c >= 0 && c != k;
    }
  }

  /** The broker's CA is there once an answer that carried it was stored to the end. */
  lemma {:induction false} CAStoredExactly(ca: bool, device: bool, h: seq<Attempt>)
    ensures Over(ca, device, h).ca <==> ca || exists i | 0 <= i < |h| :: h[i].withCA && h[i].done >= 3
    decreases |h|
  {
    if h != [] {
      var n := |h| - 1;
      CAStoredExactly(ca, device, h[..n]);
      assert forall i | 0 <= i < n :: h[..n][i] == h[i];
    }
  }

  /** A host with a device key, stored CA and willing broker gets an identity after every history of
      saves except one: the last save to write stopped between key and certificate, over another. */
  lemma EveryHistoryButOne(h: seq<Attempt>, now: int, key: nat, r: Reply)
    requires Genuine(h) && Willing(key, r)
    ensures EnsureSpec(Over(true, true, h), now, key, r).1.Ok? <==> !exists n :: StoppedOver(h, n)
  {
    TornExactly(true, true, h);
    CAStoredExactly(true, true, h);
    KeepsDevice(true, true, h);
    EnsureSucceedsExactly(Over(true, true, h), now, key, r);
  }

  lemma {:induction false} KeepsDevice(ca: bool, device: bool, h: seq<Attempt>)
    ensures Over(ca, device, h).device == device
    decreases |h|
  {
    if h != [] { KeepsDevice(ca, device, h[..|h| - 1]); }
  }

  /** That one is reached in the ordinary course of things: the host is enrolled, a run renews the
      identity, and goes down after writing the new key. From then on no run finds an identity. */
  lemma RenewalCanLockOut(f: Files, u: Run, us: seq<Run>, now: int, key: nat, r: Reply)
    requires Load(f).Ok? && u.now < f.cert.value.notAfter && u.now >= f.cert.value.renewAt
    requires u.renewal.Issues? && u.renewal.done == 1 && u.renewKey != f.cert.value.key
    ensures var after := RunSpec(f, u);
            Torn(after) && RunAll(after, us) == after && EnsureSpec(after, now, key, r).1.Err?
  {
    TornStaysTorn(RunSpec(f, u), us, now, key, r);
  }
}
