# FlyingCerts: a verified model

FlyingCerts is a certificate broker. It obtains public certificates over DNS-01, keeps them, and hands them
to agents on internal hosts, which identify themselves with certificates of the broker's own CA. Almost
everything it promises is a statement about state that outlives crashes, restarts and concurrent callers.
This project models that state and proves the promises, or, where the code falls short of one, proves exactly
when it is kept and gives the input or the run that breaks it.

`dafny verify dfyconfig.toml` checks everything. Each file is one component:

| file | component |
|---|---|
| `GoStrings.dfy`, `GoDuration.dfy`, `Sets.dfy` | the parts of Go's `strings` and `time` packages that matter here, and one fact about sets |
| `Redactor.dfy` | the log redactor |
| `Cycles.dfy` | the depth-first cycle check of the backlog kit |
| `RateLimiter.dfy` | the bounded, evicting attempt counter in front of the open routes |
| `Tokens.dfy`, `TokenProtocol.dfy` | bootstrap tokens: one caller at a time, then any number of interleaved callers |
| `Lifetime.dfy`, `Deadline.dfy` | lifetime syntax; when an identity ends, is renewed and is warned about |
| `Registry.dfy`, `RegistryRuns.dfy`, `Review.dfy` | agents and revocation, several registries over one file, the report |
| `AtomicFile.dfy`, `CertStore.dfy`, `Identity.dfy`, `RootCA.dfy` | key-then-certificate writes and what crashes leave |
| `PathClean.dfy`, `Backup.dfy`, `BackupRoundTrip.dfy` | lexical paths, the archive, restore after create |
| `ZoneLock.dfy` | the two-level lock around DNS challenges |
| `CsrCheck.dfy` | the names a certificate request may ask for |
| `Broker.dfy`, `BrokerAnswers.dfy` | the request handlers; who is given what, in terms of the request and the state alone |
| `BrokerRuns.dfy` | every identity over every run |

Code that changes state is a class whose methods are proved equal to a function of the old state
(`...Spec`, `Apply`, `AllowStep`, `Written`); the results below are about those functions. The methods of
`Registry.Registry` that change it share one contract, the two-state predicate `Did`: the new state is
`Apply` of the old one, and the file becomes that state exactly if the operation saves and the write succeeds.
Concurrency is modelled as one access of one caller at a time, in any order; a crash is the loss of any set of
callers between two accesses, or a sequence of writes that stops early. The rows for single methods and handlers
(`Tokens.Store.Get`, `Registry.FileState.Load`, `RootCA.Directory.Open` and the like), and one-step facts such as
`Broker.DeliveredExactly`, `Broker.IssuedExactly`, `BrokerRuns.RevokedIsShutOut`, `Tokens.VerifyOrder` and
`Identity.EnsureSucceedsExactly`, only say what one body does: they tie the code to the functions that the results
over all runs, all histories and all inputs are about. Time is an integer number of
nanoseconds. Results whose names end in `Exactly` and those of `BrokerAnswers` are stated without the function of the
code that they are about, in terms of inputs and state. Failing input and output is a parameter: `fault`, `fate`, `done`, `upTo`.

## Where the code differs from what is said about it

- The rate limiter is described as a sliding window (`internal/brokerapi/ratelimit.go:43`); it is a fixed one,
  anchored at the first attempt. The bound for an interval as long as the window is therefore `2*limit - 1`, and
  it is reached (`RateLimiter.AtMostTwiceLessOne`, `RateLimiter.BurstReachesTheBound`).
- `revoke` on the command line is said to take effect on the agent's next request
  (`cmd/flying-certs-server/broker.go:386-389`). It opens a registry of its own; a broker that is running does
  not read the file again, goes on authorising, and its next write removes the revocation
  (`RegistryRuns.RevocationLost`; exactly when one survives: `RegistryRuns.SurvivesExactly`).
- A revocation is looked up under the name in lower case without surrounding space. One of a configured name
  that is not in that form does not stop renewals (`BrokerRuns.RevocationReachesTheGate`).
- No state of a host is said to need somebody to log into it (`README.md:138`). A write that stops between key
  and certificate, over an existing certificate, leaves one: no later `run` recovers
  (`Identity.RenewalCanLockOut`, `Identity.EveryHistoryButOne`); enrolling with the device key does
  (`Identity.EnrolRecovers`).
- A CA creation that stops between key and certificate leaves a directory for which there is no CA to open and
  none can be created (`RootCA.FirstWriteDecides`).
- Day counts in lifetimes are not checked for overflow: `213504d` is accepted as 25 minutes
  (`Lifetime.PastTheLimit`).
- A leading minus sign does not always make a lifetime negative: `--5d` is accepted as five days and `-1d-30h` as
  six hours (`Lifetime.MinusSigns`). Exactly when one is accepted: `Lifetime.LeadingMinusExactly`.
- The lockout warning is scaled to the agent's own lifetime only, not to the broker-wide one an agent inherits
  (`Deadline.InheritingAgents`, `Deadline.WarnedAtEnrolment`).
- A secret that overlaps the marker can survive redaction, such as `d]xxxxx` or a part of the marker's own word.
  Secrets that are apart from it never do, whatever the others are (`Redactor.ApartSecretGone`); for one secret on
  its own the exact condition is `Redactor.SingleSecretExactly`.
- An attribute that shows no secret to the redactor is handed on unchanged, and the handler behind it renders it
  again: a byte slice is numbers to the one and text to the other (`Redactor.WrittenCleanExactly`,
  `Redactor.BytesGetThrough`).

## Model

| member | source | states |
|---|---|---|
| Redactor.NewRedactor | internal/acme/logging.go:55-63 | the loop keeps, in order, exactly the configured secrets of six bytes or more |
| Redactor.Scrub | internal/acme/logging.go:95-102 | the loop over the secrets is the one-after-the-other replacement the results below are about |
| Redactor.ApartSecretGone | internal/acme/logging.go:95-102 | a secret that disagrees with the marker however the two overlap occurs nowhere in the result, whatever the other secrets and their order |
| Redactor.SingleSecretExactly | internal/acme/logging.go:95-102 | one secret of any characters never survives in any text if and only if it escapes nowhere: no place where the marker agrees with it and the secret is not met too early |
| Redactor.SafeExactlyWhenApart | internal/acme/logging.go:95-102 | one secret without an opening bracket never survives if and only if it is apart from the marker |
| Redactor.ApartWithoutBrackets | internal/acme/logging.go:95-102 | a secret without brackets is apart exactly if it is no piece of the marker's word |
| Redactor.SafeExactlyWhenApartFromMarker | internal/acme/logging.go:55-63 | for a configuration of bracket-free secrets none that is kept survives in any text if and only if none of six bytes or more is part of "redacted" |
| Redactor.CleanTextUnchanged | internal/acme/logging.go:95-102 | text that holds no secret is returned as it is |
| Redactor.ScrubIdempotent | internal/acme/logging.go:95-102 | scrubbing what was scrubbed changes nothing |
| Redactor.BracketSecrets | internal/acme/logging.go:95-102 | a secret with a closing bracket that can survive, and one with an opening bracket that cannot |
| Redactor.WrittenCleanExactly | internal/acme/logging.go:106-136 | at every depth of groups: what the handler writes holds no secret if and only if each value is below a sensitive name, shows the redactor a secret, or shows the handler none |
| Redactor.SensitiveWithheld | internal/acme/logging.go:106-136 | below a sensitive name, at any depth, only the marker is written |
| Redactor.SensitiveExactly | internal/acme/logging.go:24-27 | a name is sensitive exactly if one of the twelve listed words is in it, in capitals or not |
| Redactor.BytesGetThrough | internal/acme/logging.go:121-126 | a value rendered differently by redactor and handler whose secret is written |
| Cycles.BuildGraph | tests/_kit/backlog.py:168-173 | the edges are those of the last entry with each id |
| Cycles.EdgesExactly | tests/_kit/backlog.py:168-173 | one id is blocked by another exactly if the last entry with the one id lists the other |
| Cycles.Search.Visit | tests/_kit/backlog.py:176-185 | the recursion ends, keeps every report a real cycle, and without a report ranks the node above all that blocks it |
| Cycles.Search.Run | tests/_kit/backlog.py:187-189 | started from every entry, it reports only cycles, and nothing if and only if there is none |
| Cycles.CheckNoCycles | tests/_kit/backlog.py:166-189 | the list is empty exactly when the graph has no cycle, and every chain in it is a cycle of the graph |
| RateLimiter.RateLimiter.Allow | internal/brokerapi/ratelimit.go:61-88 | new map and answer of one attempt, including eviction only when full and refusal for room |
| RateLimiter.AllowExactly | internal/brokerapi/ratelimit.go:61-88 | without a limit everybody is let through; with one a key inside its window while its count is below the limit, any other while fewer than 4096 keys are inside theirs; what each counter is then |
| RateLimiter.RateLimiter.EvictExpired | internal/brokerapi/ratelimit.go:91-97 | whatever order the map is walked in, what stays is what is inside its window |
| RateLimiter.RateLimiter.Prune | internal/brokerapi/ratelimit.go:101-107 | drops the expired counters and counts them |
| RateLimiter.NeverOverCap | internal/brokerapi/ratelimit.go:61-88 | over every run the map holds at most 4096 counters |
| RateLimiter.AllowSeesOnlyLive | internal/brokerapi/ratelimit.go:61-97 | one call answers like a limiter that holds live counters only and never evicts, and leaves the same live counters |
| RateLimiter.SweepsChangeNothing | internal/brokerapi/ratelimit.go:61-107 | runs from maps that agree on the live counters give the same answers with and without sweeps |
| RateLimiter.PruneIsInvisible | internal/brokerapi/ratelimit.go:101-107 | sweeps put anywhere into a time-ordered run change no answer, even at the cap |
| RateLimiter.KeyIsALoneCounter | internal/brokerapi/ratelimit.go:61-88 | a key's answers are those of a lone unbounded counter fed the same calls minus those refused for room |
| RateLimiter.RoomRefusalIsNo | internal/brokerapi/ratelimit.go:66-74 | a call refused for room is answered no |
| RateLimiter.AtMostTwiceLessOne | internal/brokerapi/ratelimit.go:61-88 | in any closed interval as long as the window a key is let through at most 2*limit-1 times |
| RateLimiter.BurstReachesTheBound | internal/brokerapi/ratelimit.go:75-88 | a run that is let through exactly 2*limit-1 times in one window length |
| Tokens.TokenRoundTrip | internal/enroll/token.go:156-163 | a printed token is read back as its id and secret |
| Tokens.ParseTokenExactly | internal/enroll/token.go:156-163 | what text is read as which id and secret |
| Tokens.IssuedIsRedeemable | internal/enroll/token.go:114-153 | a token just issued is redeemed by who presents it at its broker from a minute before its issue to the end of its lifetime, five minutes if none is given, and by nobody else |
| Tokens.SafeIdExactly | internal/enroll/store.go:16-17 | which ids are safe to use as a file name |
| Tokens.VerifyOrder | internal/enroll/token.go:169-195 | a clock error is only told to who has the right secret and broker; success means unspent and rightly presented |
| Tokens.Store.Put | internal/enroll/store.go:59-68 | writes the pending record, or refuses an unsafe id |
| Tokens.Store.Get | internal/enroll/store.go:71-90 | the pending record before the redeemed one; an unsafe id is unknown |
| Tokens.Store.Redeem | internal/enroll/store.go:96-133 | verifies, claims by moving the file, stamps, and leaves pending, redeemed and claiming as specified |
| Tokens.Store.Prune | internal/enroll/store.go:165-185 | both files of every stale record are gone, all others stay, and the count is the number of files removed |
| Tokens.PruneExactly | internal/enroll/store.go:165-185 | after pruning a pending unspent token is there, unchanged, exactly if its end is not before the cutoff; a redeemed one alone exactly if it was redeemed no earlier; unsafe ids and claims are untouched |
| Tokens.PruneKeepsRedeemable | internal/enroll/store.go:165-185 | pruning with a cutoff that has come changes the outcome of no redemption that succeeds without it |
| Tokens.RedeemAlone | internal/enroll/store.go:96-133 | a lone redemption succeeds exactly for the right presenter of a pending unspent record, and from then on the token is unknown to everybody |
| TokenProtocol.Conservation | internal/enroll/store.go:96-133 | under every interleaving with crashes: successes, pending tokens and claims held never exceed puts |
| TokenProtocol.OnePutOneRedemption | internal/enroll/store.go:96-133 | one put gives at most one successful redemption, over all runs |
| TokenProtocol.NothingIsLost | internal/enroll/store.go:96-133 | without crashes, failures and removals the account balances exactly |
| TokenProtocol.ExactlyOneWinner | internal/enroll/store.go:96-133 | when a put token is gone and nobody is mid-way, exactly one redemption succeeded |
| TokenProtocol.RunAgrees | internal/enroll/store.go:59-133 | at every moment of every run each file and each caller agrees with what was put |
| TokenProtocol.WinnersAndLosers | internal/enroll/store.go:96-133 | a winner presented everything right and holds its own stamped record; a loser who presented everything right hears "unknown" |
| TokenProtocol.PruneTakesOnlyTheExpired | internal/enroll/store.go:165-185 | what Prune takes from pending is refused to everyone whose clock is at its cutoff or later |
| TokenProtocol.InFlightMayLose | internal/enroll/store.go:165-185 | a redemption that read its clock before the expiry and is overtaken by a pruner loses the token |
| TokenProtocol.AloneIsRedeem | internal/enroll/store.go:96-133 | the protocol run by one caller alone is the sequential Redeem |
| TokenProtocol.AloneIsPrune | internal/enroll/store.go:165-185 | the pruner's steps, taken by one pruner alone, can lead to exactly the files of the sequential Prune |
| GoDuration.DurationRoundTrip | internal/lifetime/lifetime.go:79-119 | every 64-bit duration is read back from its printed form |
| Lifetime.RoundTripExactly | internal/lifetime/lifetime.go:70-108 | a lifetime's text is read back as that lifetime if and only if it is unlimited or positive; otherwise it is refused |
| Lifetime.ParseKinds | internal/lifetime/lifetime.go:84-96 | blank text, and nothing else, leaves the lifetime open; the word alone, in any case, lifts it |
| Lifetime.UnitCounts | internal/lifetime/lifetime.go:97-119 | a count of nanoseconds up to hours is that many of them while it fits 64 bits |
| Lifetime.NumbersNeedUnits | internal/lifetime/lifetime.go:97-119 | a number without a unit is refused, zero as zero |
| Lifetime.DayCount | internal/lifetime/lifetime.go:112-138 | a digits-only day count n and a rest mean n*24h plus the rest, wrapped to 64 bits; more than 2^31-1 days are refused |
| Lifetime.DaysExactly | internal/lifetime/lifetime.go:84-138 | such a text is read as the sum exactly when the sum is positive and fits 64 bits, and if accepted at all differs by a multiple of 2^64 |
| Lifetime.DaysAlone | internal/lifetime/lifetime.go:112-138 | a bare day count is exact from 1 to 106751 and for no other |
| Lifetime.PastTheLimit | internal/lifetime/lifetime.go:126-137 | 106752d is refused as negative, 213504d accepted as 25 minutes |
| Lifetime.LeadingMinusExactly | internal/lifetime/lifetime.go:112-138 | every text with a leading minus sign: accepted exactly when day count and rest are read and their own signed sum, negated in 64 bits, is positive, and as that value |
| Lifetime.MinusOfNegative | internal/lifetime/lifetime.go:134-136 | for a sum that fits 64 bits, that is exactly when the sum is negative |
| Lifetime.MinusSigns | internal/lifetime/lifetime.go:113-137 | a bare count behind one minus sign is refused, behind two accepted; -1d-30h is accepted as six hours |
| Registry.AcceptsExactly | internal/registry/registry.go:110-145 | a configuration is accepted if and only if all agents are well formed and no two share a name or device key; the maps then hold exactly it |
| Registry.OneKeyOneAgent | internal/registry/registry.go:204-212 | a fingerprint finds an agent exactly if that agent is configured with that key |
| Registry.CanonicalIsTheBody | internal/keyfp/keyfp.go:53-60 | a fingerprint with or without prefix, padding and white space is its body, and different bodies stay different |
| Registry.NormalNameStays | internal/registry/registry.go:498-500 | a trimmed name in small letters is its own normal form |
| Registry.SameNormalExactly | internal/registry/registry.go:498-500 | two names have one normal form exactly if they are, trimmed, equal up to case |
| Registry.Configure | internal/registry/registry.go:117-145 | the loop over the agents, with the first complaint as its error |
| Registry.New | internal/registry/registry.go:110-162 | the whole of New: configuration, load, and what of the saved state is kept |
| Registry.TakeIn | internal/registry/registry.go:152-160 | state of configured agents is kept, and every revocation |
| Registry.RestartRemembers | internal/registry/registry.go:147-160 | what a restart knows of an agent is all that was saved, if it is configured or revoked, and nothing otherwise |
| Registry.WhatChanges | internal/registry/registry.go:227-287 | what each operation does to each field of the agent, and that every other agent keeps its state |
| Registry.FileState.Load | internal/registry/filestate.go:23-41 | a missing file is empty state, a corrupt one an error |
| Registry.FileState.Save | internal/registry/filestate.go:44-50 | the file becomes the state, or stays as it was when the write fails |
| Registry.Registry.DoRevoke | internal/registry/registry.go:227-243 | revokes any name, configured or not, and saves |
| Registry.Registry.DoRestore | internal/registry/registry.go:246-256 | lifts a revocation and saves; without one does neither |
| Registry.Registry.DoEnrolled | internal/registry/registry.go:259-266 | records expiry and contact, leaves revocation alone, saves |
| Registry.Registry.DoSeen | internal/registry/registry.go:269-274 | records contact, leaves the rest alone, saves |
| Registry.Registry.DoDelivered | internal/registry/registry.go:277-287 | records delivery of one certificate and contact, saves |
| Registry.Registry.Authorise | internal/registry/registry.go:180-197 | revocation first, then configuration, then the list, by a loop over it |
| Registry.Registry.ByPublicKey | internal/registry/registry.go:204-212 | the agent whose canonical key is presented, or unknown key |
| RegistryRuns.FileIsLastSaversMemory | internal/registry/registry.go:491-496 | for any interleaving of registries over one file, the file is the memory of the last one that wrote |
| RegistryRuns.UntouchedFile | internal/registry/registry.go:491-496 | starting, stopping and failing writes leave the file as it was |
| RegistryRuns.MemRevokedMeans | internal/registry/registry.go:147-160 | a registry holds a revocation if and only if it read or made it and has since neither lifted it nor been restarted |
| RegistryRuns.SurvivesExactly | internal/registry/registry.go:227-287 | a revocation on disk stays there through every later event exactly when every later saver holds it |
| RegistryRuns.OnDiskInTheEnd | internal/registry/registry.go:491-496 | whether it is on disk at the end depends on the last saver alone |
| RegistryRuns.RevocationLost | cmd/flying-certs-server/broker.go:384-407 | four events after which a revocation made elsewhere is gone, and the first registry authorised the agent throughout |
| RegistryRuns.AloneTracks | internal/registry/registry.go:110-256 | one registry whose saves succeed: memory and file agree with the latest Revoke or Restore, restarts included |
| RegistryRuns.AuthorisedExactly | internal/registry/registry.go:180-197 | over all its runs an agent is authorised if and only if it is configured now, the certificate is listed, and the latest Revoke or Restore is not a Revoke |
| Review.Review | internal/registry/registry.go:399-455 | whatever order the agents are walked in: one finding for each agent something is due about, strictly ordered by urgency and name |
| Review.OneReport | internal/registry/registry.go:447-455 | any two such reports are the same list, with no agent twice |
| Review.LessExactly | internal/registry/registry.go:447-454 | names are ordered by the first character in which they differ, a beginning before what it begins |
| Review.ConcernExactly | internal/registry/registry.go:399-446 | exactly when an agent is reported as locked out, about to be, silent, never enrolled or unlimited |
| Review.ConcernNeverDecreases | internal/registry/registry.go:399-446 | with nothing new heard an agent's concern never becomes less urgent |
| Deadline.NeverOutlivesCA | internal/agentca/agentca.go:240-269 | an identity ends no later than its CA, with the expiry that is reported; refused exactly if the CA is over or would be outlived |
| Deadline.ValidAtIssue | internal/agentca/agentca.go:250-257 | a lifetime of a second or more is valid at issue; every shorter one can be over at issue |
| Deadline.LeftAtRenewal | internal/certinfo/certinfo.go:94-113 | when renewal is due at least a third of the lifetime plus 18 seconds is left, saturation and rounding included, and at most a third plus 21 seconds, short of the longest durations |
| Deadline.RenewalComesFirst | internal/registry/registry.go:417-428 | an agent with its own lifetime is never reported as about to lock itself out before its certificate asks for renewal |
| Deadline.NoEarlyWarningExactly | internal/registry/registry.go:469-478 | with the certificate in hand: no early warning if and only if the effective threshold is at most what is left at renewal |
| Deadline.InheritingAgents | internal/registry/registry.go:469-478 | an inheriting agent: never early up to a third of the lifetime, always early beyond a third and 21 seconds |
| Deadline.WarnedAtEnrolment | internal/registry/registry.go:417-428 | one day inherited and a threshold of five days: warned about in the moment of enrolment, not so with a lifetime of its own |
| ZoneLock.OneKeyExactly | internal/acme/issuer.go:234-237 | two orders get one key if and only if their first names agree up to case, or one is the other's wildcard |
| ZoneLock.ZoneLock.MutexFor | internal/acme/zonelock.go:42-49 | every key keeps its mutex, a new key gets one no other key has |
| ZoneLock.MutualExclusion | internal/acme/zonelock.go:42-53 | under every schedule of any number of threads at most one works under a key |
| ZoneLock.OrdersAreSerialised | internal/acme/issuer.go:209-210 | orders whose first names share a record are never worked on together |
| ZoneLock.KeyKeepsMutex | internal/acme/zonelock.go:42-49 | over every run a key's mutex never changes |
| ZoneLock.WaitsForItsOwnKey | internal/acme/zonelock.go:51-52 | a thread waits for its mutex only while another works under the same key |
| ZoneLock.SomeThreadCanStep | internal/acme/zonelock.go:42-53 | while a thread is not idle, one that is not idle can step |
| ZoneLock.OrdersCanFinish | internal/acme/zonelock.go:42-53 | from every reachable state a schedule without new orders makes all threads idle |
| PathClean.CleanKeepsPlace | internal/backup/backup.go:394-396 | path.Clean keeps the place and cleaning twice is cleaning once |
| PathClean.AcceptedExactly | internal/backup/backup.go:393-404 | an entry name is not refused if and only if it is two or more plain names joined by slashes |
| PathClean.JoinedBelow | internal/backup/backup.go:415 | plain names joined to a root lead below that root, whatever the root and the working directory |
| Backup.NeverOutside | internal/backup/backup.go:393-416 | a name that is not refused goes to a listed file, to nothing, or strictly below the root of its area |
| Backup.CreatedNamesAccepted | internal/backup/backup.go:191-195 | the names Create makes are area and path, and Restore sends each to its target |
| Backup.RootFileRefused | internal/backup/backup.go:183-196 | a configured directory that is itself a file gives an entry Restore refuses |
| Backup.NeverWidened | internal/backup/backup.go:424-431 | no mode after restore has group or world write or execute, a key none for group or world, and no bit is added except to reach 0600 |
| Backup.ModeComesBack | internal/backup/backup.go:424-431 | of a file that is not a key the bits of 0644 come back as they were; a key, or a file with none of them, is 0600 |
| Backup.KeysAreSecret | internal/backup/backup.go:271-273 | every private key in PEM is taken for one, whatever its kind, and nothing without the words is |
| Backup.Disk.Collect | internal/backup/backup.go:172-212 | the walks and the listed files give every file once, in whatever order maps and directories are read |
| Backup.Disk.Create | internal/backup/backup.go:126-246 | entries and manifest, redacted or not, of everything collected |
| Backup.Disk.WriteRestored | internal/backup/backup.go:424-465 | the file with its narrowed mode |
| Backup.Disk.Restore | internal/backup/backup.go:328-386 | nothing written for an unknown format or a redacted archive; otherwise the entries in order up to the first that fails |
| BackupRoundTrip.RestoreSucceedsExactly | internal/backup/backup.go:328-386 | restoring entries succeeds if and only if each has a name that is taken, fits if it is kept, finds nothing in its way, and none is to be put below another; each place then holds the last entry for it |
| BackupRoundTrip.RoundTrip | internal/backup/backup.go:328-386 | the same for a whole archive, onto any host: the exact condition, every item back where those that share a place agree, and no other file changed |
| BackupRoundTrip.OntoAnotherHost | internal/backup/backup.go:406-415 | with the host's directories and listed files apart, room for each file is enough |
| BackupRoundTrip.OntoTheSameLayout | internal/backup/backup.go:406-415 | on the same layout room is enough too, also where listed files lie inside copied directories, and each file returns to its place |
| BackupRoundTrip.OntoItself | internal/backup/backup.go:328-386 | restoring a host's own full archive over it succeeds exactly if no file is larger than 256 MiB; then the same places hold files, and only modes are narrowed |
| BackupRoundTrip.OntoAnEmptyHost | internal/backup/backup.go:328-386 | onto a host with nothing on it, its places apart: it succeeds if no file is larger than 256 MiB, every file is back, and there is no other |
| BackupRoundTrip.RestoreStaysHome | internal/backup/backup.go:328-465 | whatever an archive holds and however far it gets: no file is removed, and what is new or changed lies below a directory of the layout or is a listed file, writable by its owner alone, and readable by its owner alone if it holds a key |
| BackupRoundTrip.EveryFileIsBack | internal/backup/backup.go:393-416 | said of one file: below its area's old root, and now below the new one |
| BackupRoundTrip.EveryListedFileIsBack | internal/backup/backup.go:199-212 | a file listed on its own is, wherever the first host kept it, back where the other keeps it |
| BackupRoundTrip.NarrowedExactly | internal/backup/backup.go:424-465 | a restored file has the same bytes and those bits of 0644 it had, or is 0600 if it had none or holds a key |
| BackupRoundTrip.TargetsApart | internal/backup/backup.go:406-415 | on separate directories no two items are in each other's way |
| BackupRoundTrip.RedactedIsNoRecoveryPoint | internal/backup/backup.go:154-161 | after redaction no entry has a key in it, what was masked is named, and restoring it is refused without a write |
| BackupRoundTrip.SecretsAreDeclared | internal/backup/backup.go:154-161 | a full archive says it holds secrets exactly if an entry does |
| AtomicFile.Directory.Write | internal/atomicfile/atomicfile.go:28-77 | done, failed or crashed at any step: the result, the cleanup, and every state in between, the temporary file never readable by more than asked for with data in it |
| AtomicFile.NeverPartial | internal/atomicfile/atomicfile.go:28-77 | at every moment and after a crash at any moment, for a first write and for a replacement: what is found is the old file or the complete new one with its mode, and where there was a file there is one |
| CertStore.Store.Save | internal/certstore/certstore.go:102-142 | what is on disk after each number of writes; nothing for a bad name or a pair that does not match |
| CertStore.Store.Load | internal/certstore/certstore.go:145-171 | the pair, or which of the four errors |
| CertStore.ValidNamesAreSafe | internal/certstore/certstore.go:79-91 | a name that is taken has no separator and does not begin with a dot; short names of small letters and digits are all taken |
| CertStore.LoadExactly | internal/certstore/certstore.go:145-171 | a Load overlapping any Saves returns a pair some Save was given; not-found exactly before the first chain; unusable exactly if a Save had its key but not its chain down; never anything else |
| CertStore.SaveHeals | internal/certstore/certstore.go:102-142 | once a Save has its chain down and until the next begins every Load returns its pair |
| CertStore.StoppedAfterKey | internal/certstore/certstore.go:125-141 | a Save stopped after its key makes the certificate before it unusable while its metadata stays listed |
| Identity.Host.LoadIdentity | internal/agent/identity.go:57-82 | the identity or which error, in the order of the checks |
| Identity.Host.SaveIdentity | internal/agent/identity.go:169-197 | what is on disk after each number of writes |
| Identity.Host.EnrolWithDeviceKey | cmd/flying-certs-agent/main.go:227-269 | needs the device key and a CA, and saves over whatever is there |
| Identity.Host.EnsureIdentity | cmd/flying-certs-agent/main.go:358-395 | which states are used, refused or replaced, and what is left on disk |
| Identity.EnsureSucceedsExactly | cmd/flying-certs-agent/main.go:358-395 | with device key and willing broker, from any state and at any time: an identity if and only if the CA is stored and the identity is not torn |
| Identity.EnsureReturnsUsable | cmd/flying-certs-agent/main.go:358-395 | a host with a usable identity, not over, keeps it; what any other host gets back is the certificate just issued for the new key, and it holds these two |
| Identity.EnsureReplacesExactly | cmd/flying-certs-agent/main.go:358-395 | from any state without a usable identity: exactly when a new one is given back |
| Identity.RunRenews | cmd/flying-certs-agent/main.go:271-296 | a run leaves a usable identity alone before its renewal is due and then puts the renewed one in its place; a refused renewal changes nothing |
| Identity.TornExactly | internal/agent/identity.go:182-195 | over every history of interrupted saves the identity is torn exactly if the last save to write stopped between key and certificate, over an existing one |
| Identity.CAStoredExactly | internal/agent/identity.go:191-195 | the CA is there exactly if it was, or an answer carrying it was stored to the end |
| Identity.EveryHistoryButOne | cmd/flying-certs-agent/main.go:358-395 | a host with device key and CA gets an identity after every history of saves except that one |
| Identity.TornStaysTorn | cmd/flying-certs-agent/main.go:360-367 | no number of runs changes a torn state, whatever the broker answers |
| Identity.EnrolRecovers | cmd/flying-certs-agent/main.go:227-269 | enrolling with the device key gives an identity from every state |
| Identity.TokenDoesNotRecover | cmd/flying-certs-agent/main.go:182-194 | enrolling with a token does not recover a torn host |
| Identity.TokenEnrolsTheNew | cmd/flying-certs-agent/main.go:182-215 | a host with nothing is given what is issued for its token; one with a certificate keeps what it has |
| Identity.RenewalCanLockOut | cmd/flying-certs-agent/main.go:287-297 | an enrolled host whose renewal stops after its key is torn, and stays so through all runs |
| RootCA.Directory.Open | internal/agentca/agentca.go:63-100 | the root, or which of the two errors |
| RootCA.Directory.Create | internal/agentca/agentca.go:104-169 | refused if there is a key; otherwise key, then certificate |
| RootCA.Directory.OpenOrCreate | internal/agentca/agentca.go:172-178 | opens, and creates only if there is no certificate |
| RootCA.FirstWriteDecides | internal/agentca/agentca.go:104-178 | over all starts: one root for ever, or, if the first write stopped after its key, none for ever |
| RootCA.NeverReplaced | internal/agentca/agentca.go:104-178 | from any state: a key or certificate that is there is never touched; both are opened, one alone is an error |
| CsrCheck.Check | internal/csrcheck/csrcheck.go:69-134 | missing and extra names in their normal form, other identities, and OK exactly when the request asks for the permitted names and nothing else |
| CsrCheck.PlainNameStays | internal/csrcheck/csrcheck.go:122-124 | a trimmed name in small letters without a final dot is its own normal form, and that of itself with one |
| CsrCheck.SameNameExactly | internal/csrcheck/csrcheck.go:122-124 | two names are one exactly if, trimmed and without one final dot, they are equal up to case |
| CsrCheck.PlainNamesExactly | internal/csrcheck/csrcheck.go:69-134 | with such names on both sides a request is accepted exactly if its DNS names and common name are, as a set, the permitted names and it asks for nothing else |
| Broker.Server.HandleEnrol | internal/brokerapi/handlers.go:42-135 | the token is spent whatever follows; then configuration, revocation, signing, record and state |
| Broker.Server.HandleIdentityRequest | internal/brokerapi/handlers.go:429-519 | the agent follows from the key; not revoked, and not the device key itself |
| Broker.Server.HandleRenewIdentity | internal/brokerapi/handlers.go:331-371 | behind the gate; the name is that of the certificate presented |
| Broker.Server.HandleFetch | internal/brokerapi/handlers.go:150-197 | behind the gate; answer, record and state |
| Broker.Server.HandleIssue | internal/brokerapi/handlers.go:205-311 | behind the gate; permission, mode, request, names, and only then the CA |
| Broker.DeliveredExactly | internal/brokerapi/handlers.go:150-197 | a certificate is handed over exactly to a valid, unrevoked, permitted identity; the key with it exactly in share mode; one decision recorded |
| Broker.IssuedExactly | internal/brokerapi/handlers.go:205-311 | a certificate is obtained exactly for a permitted agent in issue mode whose request asks for the configured names, no fewer and no more |
| Broker.GrantRemembers | internal/brokerapi/handlers.go:397-403 | signed for the agent's own lifetime, else the broker's, else thirty days; the registry remembers exactly that expiry |
| Broker.GrantedIsRenewedFirst | internal/brokerapi/handlers.go:429-519 | from signing to report: the identity just given asks for renewal before any lockout warning |
| BrokerAnswers.EnrolExactly | internal/brokerapi/handlers.go:42-135 | an enrolment adds exactly one identity if the token is pending, unspent and rightly presented in its time, its agent configured and not revoked, and the request can be signed; otherwise none; a right token is spent either way and no other is |
| BrokerAnswers.DefaultBrokerEnrols | internal/brokerapi/handlers.go:71-105 | with no lifetime configured anywhere a right enrolment gives an identity of thirty days |
| BrokerAnswers.IdentityRequestExactly | internal/brokerapi/handlers.go:429-519 | a device key is answered with one identity for the agent configured with it exactly if that is not revoked, the request is for another key, and it can be signed |
| BrokerAnswers.RenewExactly | internal/brokerapi/handlers.go:331-371 | the holder of an identity is given another of the same name exactly while the first is valid, the name not revoked, and the request can be signed |
| BrokerAnswers.DeliveredToHolder | internal/brokerapi/server.go:323-349 | the holder of an identity signed for a plain name is handed a certificate exactly while it is valid and that very name is configured, not revoked and permitted, and a matching pair is stored; which chain, and when its key |
| BrokerAnswers.IssuedToHolder | internal/brokerapi/handlers.go:205-311 | the same for a certificate obtained for the holder's own key: in issue mode, for a signed request whose plain names are the configured ones |
| BrokerAnswers.DeliveriesRemembered | internal/brokerapi/handlers.go:150-197 | an answer that hands nothing over changes no state; a delivery is remembered for that agent alone, on disk unless the write fails |
| BrokerAnswers.IssuesRemembered | internal/brokerapi/handlers.go:296-311 | the same for a certificate obtained |
| BrokerRuns.EachJustified | internal/brokerapi/handlers.go:42-135 | in every run each identity was signed for the key of a signed request: on the right secret of a pending token in its time, on a device key of a configured agent, or on an identity of that name presented while valid; the name configured (for the first two) and not revoked |
| BrokerRuns.PendingWasPut | internal/enroll/store.go:59-68 | over every run a pending record is one that some earlier act issued |
| BrokerRuns.TokenRoot | internal/brokerapi/handlers.go:71-76 | an identity bought with a token: an earlier act issued that token for that agent and broker, and its very secret was presented in its time |
| BrokerRuns.TracesBack | internal/brokerapi/server.go:323-349 | each identity traces back, through renewals that each presented the one before while it was valid, to such a root of the same normalised name; none outlives the CA |
| BrokerRuns.OneIdentityPerToken | internal/brokerapi/handlers.go:71-76 | identities bought with a token, plus one while it is pending, never exceed its puts |
| BrokerRuns.TokensAreDifferent | internal/brokerapi/handlers.go:71-76 | with ids put once, no two identities were bought with one token |
| BrokerRuns.RevokedIsShutOut | internal/brokerapi/server.go:214-237 | while a normalised name is revoked, no identity of that name renews, fetches or issues |
| BrokerRuns.RevocationReachesTheGate | internal/brokerapi/server.go:226-233 | revoking a name shuts out an identity of that name, up to the normal form, exactly if the name is in normal form |
| BrokerRuns.RecordIsComplete | internal/brokerapi/handlers.go:113-121 | over every run the record names exactly the identities signed, in order |

## Left out

- ACME, DNS providers, HTTP, TLS handshakes, X.509 and PEM, hashing and key generation: a chain carries its key, the
  token hash is injective, a presented certificate is one that was signed or does not verify, the public CA answers or fails.
- JSON, YAML, tar and gzip are taken to give back what was put in; so the manifest is a value, and its lists are sets.
- Characters stand for bytes in the redactor and in archives. Lower case is that of the ASCII range everywhere.
- GoDuration.DurationRoundTrip: fractions are cut exactly instead of in floating point; the two agree on every text
  that is printed, but nothing is claimed for other fractions.
- Deadline.RenewalComesFirst: the product with two thirds is any integer within 4096 ns of it, not a computed float; the
  result leaves 18 seconds for that.
- Broker.Server.HandleEnrol: the rate limiter in front of it is a component of its own and not part of the broker's
  runs, nor are malformed JSON bodies apart from unreadable requests.
- Broker.Server.HandleIssue: the predecessor that is named to the public CA is not modelled.
- BrokerRuns.TracesBack: a request is one act; how concurrent redemptions interleave, and what a crash inside one
  leaves, is in `TokenProtocol.dfy`.
- BrokerRuns.TokensAreDifferent: that ids are never put twice is taken from their being random.
- Registry.Configure: certificate lists are kept in configured order; the code sorts them, which only their printing shows.
- Review.Review: findings carry no detail text; the library sort is an insertion here.
- CertStore.LoadExactly: one writer at a time, and a key of its own for every pair, as key generation gives.
- Backup.Disk.Create: entries are in the order collected, not sorted by name; the results hold for every order. Time stamp
  and tool name are not kept.
- Backup.Disk.Restore: directories are implied by files, so narrowing the mode of an existing directory is not modelled,
  and neither are failing reads and writes; a file in the place of a directory is an error.
- Backup.Disk.WriteRestored: one step, where the code writes a temporary file and renames it; making and narrowing
  directories and failing writes are not in it.
- BackupRoundTrip.RoundTrip: for an archive whose entries are those of Create; archives from elsewhere are covered by
  `Backup.NeverOutside` and `Backup.Disk.Restore` only.
- Redactor.ApartSecretGone: for several secrets of which some are not apart only this one direction is proved, except
  where none has a bracket.
- Redactor.WrittenCleanExactly: attribute names are written as they are, and so are the names of groups.
- AtomicFile.Directory.Write: the flush of the directory entry after the rename is best effort in the code and absent here.
- Identity.Host.EnrolWithDeviceKey: the broker's address, the CA file's content and the device certificate are not modelled.
- ZoneLock.OrdersAreSerialised: nothing is said about orders that share a name which is not the first, as the code looks
  at the first alone; nor about fairness.
- Cycles.CheckNoCycles: entries without an id and the limit on recursion depth of Python.
- Simultaneous first creations of the agent CA and simultaneous saves of one certificate name, for which the code promises
  nothing; listing, silence and status reports; deployment, configuration files, flags and log wording.
