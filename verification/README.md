# Verified core of craton-tensor-wasm

A Dafny model of five parts of craton-tensor-wasm, with proofs of what they guarantee over
every input, every run and every interleaving:

- the two-layer token-bucket rate limiter (`RateLimit*.dfy`, `Limiter*.dfy`),
- the signed, content-addressed artifact store: its envelope format, the streaming writers
  and readers, key rotation, garbage collection and the races between them (`Envelope*.dfy`,
  `BlobNames.dfy`, `ArtifactStore.dfy`, `Store*.dfy`),
- the streaming response writers (`StreamWriter.dfy`),
- the job and function registries of the gateway (`Jobs.dfy`, `JobRegistry.dfy`, `Gateway*.dfy`),
- the token allowlist parser (`TokenScope*.dfy`).

`Options.dfy`, `Strings.dfy` and `Sorting.dfy` hold the small common vocabulary.
`dafny verify dfyconfig.toml` checks everything.

## How the model is built

Code that changes things step by step is a class or a method with loops: the limiter and its
maps, the MAC tee writers and readers, the readers' handle, the store's directory, the
registries, the parser loops. Each such method is proved against a specification function,
and the properties of whole runs are proved about those functions. Protocols are state
machines over their atomic steps: the locks of the limiter, the stream writers, the
check-then-act handlers of the gateway, and writers, readers and removals on one directory.

BLAKE3, HMAC-SHA256 and zstd are the fields of a `Codec`, arbitrary functions. What a theorem
needs of them it requires by name: `WellSized` (fixed lengths of hash and tag) and `Lossless`
(what was compressed at any level decodes to itself). The encoder's output is a function of
level and total input; the decoder produces bytes and then succeeds or fails, and may stop
reading its source anywhere. No hash is assumed injective: rotation assumes only that no two
payloads that were put collide.

## Where the code and its documentation differ

The model follows the code.

- The bound of a token bucket needs instants that do not go back for a bucket, and the
  clock is read before the locks are taken. `WindowBoundAnyClock` is the bound without that
  hypothesis, and `ClockRaceIsTight` shows that its extra term is reached.
- A race between first touches of a token is documented to overshoot the cap briefly and to
  correct itself at the next new tenant. It does not (`NoSelfCorrection`). `SoftTenantCap`
  is what holds, and `CapIsTight` shows that it is exact.
- A sweep is documented as invisible to clients. It leaves every balance as it was exactly
  when it drops no bucket that is not full (`InvisibleIff`); a ttl that covers a full refill
  of the active layers ensures it, and then no later request can tell. With one active layer
  that is necessary too (`HorizonIff`).
- `resolve_read_key` is documented to have at most one match. A payload put again after a
  rotation sits under two keys; removal then takes the copy of the first key in read order.
  `AgeStageExactIff` and `AlwaysCollectedIff` give the exact condition under which
  collection is right.
- The fuzz target asserts that the deprecated count is bounded by the size of the map. That
  fails for repeated bare bearers; `LegacyCountBoundedIff` is the exact condition.
- `docs/STREAMING.md` names the last event `end`; the code sends `done` or `error`. The
  OpenAI writer treats a dropped completion signal as success, the native one as an error.
- For an oversized source `put_from` reports the running length at the chunk that tripped the
  cap, where `put` reports the length of the payload.
- A caller's writer that accepts zero bytes surfaces in `get_to` as a decompression error,
  not as an I/O error; after an interrupted write, which is tried again, a fault of the
  decoder surfaces as an I/O error (`GetTo`).

## Model

| member | source | states |
|---|---|---|
| `RateLimit.RefillAndDecide` | crates/tensor-wasm-api/src/rate_limit.rs:816-853 | refills for the elapsed time up to the burst (nothing for a rate that is not positive, nothing for a clock that went back), stamps both instants, permits at one whole token, and otherwise waits for exactly the missing part |
| `RateLimit.TouchLayer` | crates/tensor-wasm-api/src/rate_limit.rs:569-625 | finds or mints the bucket of a key, refills it and decides; every other bucket of the map is unchanged |
| `RateLimit.RejectWithHint` | crates/tensor-wasm-api/src/rate_limit.rs:644-666 | the hint is the shortest wait among the layers that themselves rejected, rounded up and at least one second |
| `RateLimit.FindColdest` | crates/tensor-wasm-api/src/rate_limit.rs:683-710 | one pass over the map counts the buckets of the token and finds one that no other bucket of the token was accessed before |
| `RateLimit.RateLimiter.constructor` | crates/tensor-wasm-api/src/rate_limit.rs:521-528 | a new limiter has no buckets |
| `RateLimit.RateLimiter.EvictLruTenantIfAtCap` | crates/tensor-wasm-api/src/rate_limit.rs:683-718 | at the cap exactly one bucket of that token goes, one with minimal last access; below the cap nothing changes |
| `RateLimit.RateLimiter.TouchBuckets` | crates/tensor-wasm-api/src/rate_limit.rs:569-625 | refills the active layers, evicting only for a pair that is new, and decides each layer from the state before the call |
| `RateLimit.RateLimiter.TryAdmit` | crates/tensor-wasm-api/src/rate_limit.rs:554-667 | the whole new state and the answer: both active layers are charged or neither is; a rejected request still refreshes its buckets |
| `RateLimit.RateLimiter.SweepIdle` | crates/tensor-wasm-api/src/rate_limit.rs:771-802 | keeps exactly the buckets idle for less than the ttl, an access stamped ahead of the clock counting as just now, and counts the others |
| `RateLimit.Retain` | crates/tensor-wasm-api/src/rate_limit.rs:785-800 | the filtered map, and the number of entries that left it |
| `RateLimitRuns.StepEffect` | crates/tensor-wasm-api/src/rate_limit.rs:554-802 | what any event does to any one bucket: charged, removed, or left alone |
| `RateLimitRuns.LegalRunIsFeasible` | crates/tensor-wasm-api/src/rate_limit.rs:569-595 | every run in which requests do not overlap is one of those in which evictions and inserts may come at any time |
| `RateLimitRuns.AvailableLater` | crates/tensor-wasm-api/src/rate_limit.rs:816-853 | lazy refill: refilling at an instant in between changes no later balance |
| `RateLimitRuns.BalancesInRange` | crates/tensor-wasm-api/src/rate_limit.rs:816-853 | in every run from a sound state, whatever the clock does and however requests overlap, every balance stays between zero and its burst |
| `RateLimitRuns.LongSweepDropsFull` | crates/tensor-wasm-api/src/rate_limit.rs:771-802 | a sweep whose ttl covers a full refill of a layer drops, in that layer, only buckets that would be full; the other layer does not matter |
| `RateLimitWindow.BalanceMoves` | crates/tensor-wasm-api/src/rate_limit.rs:816-853 | an instant that falls behind refills nothing, one that does not refills the time in between; so the balance grows by at most the difference of the instants and the refill of the span it fell behind |
| `RateLimitWindow.CreditStep` | crates/tensor-wasm-api/src/rate_limit.rs:554-718 | one event never creates credit: what it admits is paid for by the credit, the span it fell behind, and one burst if it discarded the bucket early |
| `RateLimitWindow.UntilBound` | crates/tensor-wasm-api/src/rate_limit.rs:554-718 | after an admission, the further admissions in a window are bounded by the credit and the drift up to the last of them |
| `RateLimitWindow.AmidBound` | crates/tensor-wasm-api/src/rate_limit.rs:554-718 | events before the first admission in a window do not raise its bound |
| `RateLimitWindow.WindowBoundAnyClock` | crates/tensor-wasm-api/src/rate_limit.rs:554-718 | in every run, whatever the clock does and however evictions and inserts interleave, the admissions of a bucket in [s,t] are at most (1 + early losses) bursts, the refill of t-s, and the refill of every span by which an instant fell behind the one before, both counted only between the first and the last of these admissions |
| `RateLimitWindow.WindowBound` | crates/tensor-wasm-api/src/rate_limit.rs:554-718 | with non-decreasing instants for a bucket: at most (1 + early losses in [s,t]) bursts plus the refill of t-s |
| `RateLimitWindow.TokenLayerNeverLosesEarly` | crates/tensor-wasm-api/src/rate_limit.rs:771-802 | if every sweep covers a refill of the token layer, that layer never loses a bucket early, whatever the per-tenant layer is |
| `RateLimitWindow.TokenWindowBound` | crates/tensor-wasm-api/src/rate_limit.rs:554-667 | on the token layer at most burst + qps * (t-s), plus the refill of what the instants fell behind, which is nothing when they never do |
| `RateLimitWindow.ClockRaceIsTight` | crates/tensor-wasm-api/src/rate_limit.rs:554-567 | the clock is read before the locks: for every n there is a run in which requests stamped a second earlier get in between n times and n+1 are admitted at one instant, exactly what the bound for any clock allows |
| `RateLimitHints.LayerRecovery` | crates/tensor-wasm-api/src/rate_limit.rs:833-852 | after a rejection a layer permits a retry after a span if and only if it had not rejected or the span covers its exact wait and its rate is positive |
| `RateLimitHints.RetryAdmittedIff` | crates/tensor-wasm-api/src/rate_limit.rs:554-667 | with no traffic in between, a retry is admitted if and only if both layers have recovered |
| `RateLimitHints.HintCovers` | crates/tensor-wasm-api/src/rate_limit.rs:644-666 | the rounded hint is at least the exact wait, at least one second, and less than a second too long beyond that |
| `RateLimitHints.HintAccuracy` | crates/tensor-wasm-api/src/rate_limit.rs:644-666 | Retry-After (section 10.2.3 of RFC 9110): the hint is the exact wait of the layer that rejects, the shorter of both if both do, rounded up and at least one second; one layer rejecting with a positive rate, a retry after the hint is admitted; both rejecting, none before the smaller wait is, and all from the larger wait on are |
| `RateLimitHints.AdmissionTouchesOneTenant` | crates/tensor-wasm-api/src/rate_limit.rs:569-595 | a request leaves its own pair present and every other pair as it was, except that exactly when its pair is new and the token at the cap one bucket of the token goes, one with minimal last access |
| `RateLimitHints.TenantsAfter` | crates/tensor-wasm-api/src/rate_limit.rs:569-718 | how one event changes the set of pairs of any token |
| `RateLimitHints.CapStep` | crates/tensor-wasm-api/src/rate_limit.rs:683-718 | one event keeps a token within the cap |
| `RateLimitHints.CapHolds` | crates/tensor-wasm-api/src/rate_limit.rs:683-718 | in every run every token owns at most MAX_TENANTS_PER_TOKEN pairs |
| `LimiterCapRace.RoomStep` | crates/tensor-wasm-api/src/rate_limit.rs:571-595 | with probe, scan, removal and insert as separate steps: buckets plus requests that found room grow only by an unpaid bucket or by a scan that counted below the cap |
| `LimiterCapRace.SoftTenantCap` | crates/tensor-wasm-api/src/rate_limit.rs:571-595 | in every interleaving, with at most k requests between finding room and inserting, a token owns at most k-1 buckets more than the cap, and one more for every bucket minted after a removal that found its victim gone or after a probe whose bucket was taken away |
| `LimiterCapRace.VictimWasColdest` | crates/tensor-wasm-api/src/rate_limit.rs:683-718 | whatever interleaves, a request about to remove a bucket chose it at an earlier moment, when the token was at the cap and none of its buckets had an earlier last access |
| `LimiterCapRace.RunsAlone` | crates/tensor-wasm-api/src/rate_limit.rs:571-595 | what a request does when nothing comes between its steps |
| `LimiterCapRace.Overshoot` | crates/tensor-wasm-api/src/rate_limit.rs:683-718 | two first touches that scan before either removes take one bucket away and mint two |
| `LimiterCapRace.Crowded` | crates/tensor-wasm-api/src/rate_limit.rs:571-595 | k first touches that scan one bucket below the cap before any of them inserts end k-1 above it |
| `LimiterCapRace.CapIsTight` | crates/tensor-wasm-api/src/rate_limit.rs:571-595 | the soft cap is exact: for every k and every number of unpaid buckets there is a run that reaches it, so the cap can be exceeded without limit |
| `LimiterCapRace.NoSelfCorrection` | crates/tensor-wasm-api/src/rate_limit.rs:577-580 | a request that runs alone at or above the cap never brings the number down |
| `RateLimitErasure.NoEviction` | crates/tensor-wasm-api/src/rate_limit.rs:569-595 | while at most the cap of pairs per token is ever requested, nothing is evicted |
| `RateLimitErasure.AlikeLater` | crates/tensor-wasm-api/src/rate_limit.rs:816-853 | states with equal balances now have equal balances at every later instant, an absent bucket counting as full |
| `RateLimitErasure.AlikeAnswer` | crates/tensor-wasm-api/src/rate_limit.rs:554-667 | such states answer every request alike |
| `RateLimitErasure.AlikeRequest` | crates/tensor-wasm-api/src/rate_limit.rs:554-667 | and stay alike after the same request |
| `RateLimitErasure.InvisibleEvent` | crates/tensor-wasm-api/src/rate_limit.rs:554-802 | a rejected request or a long-horizon sweep leads to an alike state |
| `RateLimitErasure.SimulationStep` | crates/tensor-wasm-api/src/rate_limit.rs:554-802 | one step of the simulation between a run and the run with events erased |
| `RateLimitErasure.ErasedRun` | crates/tensor-wasm-api/src/rate_limit.rs:554-802 | the erased run from an alike state is legal and gives the same answers to what was kept |
| `RateLimitErasure.ErasureIsUnobservable` | crates/tensor-wasm-api/src/rate_limit.rs:554-802 | erasing any set of rejected requests and sweeps from a run changes no other answer (non-decreasing instants, at most the cap of tenants per token, long-horizon sweeps) |
| `RateLimitErasure.InvisibleIff` | crates/tensor-wasm-api/src/rate_limit.rs:554-802 | a sweep or a rejected request leaves every balance as it was if and only if it discards no active bucket that is not full, by sweeping or by the eviction it forced |
| `RateLimitErasure.ShortSweepRevealsRejections` | crates/tensor-wasm-api/src/rate_limit.rs:771-802 | with a shorter horizon, erasing a rejected request turns a later rejection into an admission, although the rejection changed no balance |
| `RateLimitHorizon.Drain` | crates/tensor-wasm-api/src/rate_limit.rs:554-667 | n requests at one instant through a single layer are all admitted if and only if its balance holds n permits |
| `RateLimitHorizon.TelltaleAnswers` | crates/tensor-wasm-api/src/rate_limit.rs:554-802 | use a bucket up, sweep as soon as it is idle, ask for a burst: with the sweep all is granted, without it only if the horizon covers a refill |
| `RateLimitHorizon.HorizonIff` | crates/tensor-wasm-api/src/rate_limit.rs:771-802 | with one active layer, erasing sweeps and rejected requests is unobservable in all runs if and only if the ttl covers a full refill of that layer |
| `RateLimitHorizon.LongHorizonHides` | crates/tensor-wasm-api/src/rate_limit.rs:771-802 | with any layers a ttl that covers a full refill of each is enough |
| `LimiterLocks.ScanBalanced` | crates/tensor-wasm-api/src/rate_limit.rs:683-710 | the shard-by-shard scan holding one read guard acquires in rank order and ends holding nothing |
| `LimiterLocks.EvictBalanced` | crates/tensor-wasm-api/src/rate_limit.rs:683-718 | so does the whole eviction with its write lock at the end |
| `LimiterLocks.CriticalBalanced` | crates/tensor-wasm-api/src/rate_limit.rs:595-618 | so do the two mutexes held together, per-tenant first |
| `LimiterLocks.OperationBalanced` | crates/tensor-wasm-api/src/rate_limit.rs:549-618 | every trace of admission, eviction and sweep acquires in rank order (per-tenant shard, token shard, per-tenant mutex, token mutex) and releases everything |
| `LimiterLocks.InvHolds` | crates/tensor-wasm-api/src/rate_limit.rs:549-618 | in every interleaving of any number of threads each thread holds only locks below those it will still take |
| `LimiterLocks.ClimbToMover` | crates/tensor-wasm-api/src/rate_limit.rs:549-618 | from any blocked thread, following who holds what leads to a thread that can move |
| `LimiterLocks.NeverStuck` | crates/tensor-wasm-api/src/rate_limit.rs:549-802 | no reachable state is stuck: some thread can move unless all have finished and hold nothing |
| `LimiterLocks.EveryStepCounts` | crates/tensor-wasm-api/src/rate_limit.rs:549-802 | every step shortens the work that remains, so every execution is finite |
| `LimiterExclusion.SweepTakesEveryBucket` | crates/tensor-wasm-api/src/rate_limit.rs:771-802 | a sweep looks at every bucket it visits under the mutex of the bucket, holding its shard for writing and nothing else |
| `LimiterExclusion.EvictionTakesEveryBucket` | crates/tensor-wasm-api/src/rate_limit.rs:683-718 | an eviction looks at every bucket under its mutex, holding its shard for reading and nothing else, and locks the shard of the victim for writing, holding nothing |
| `LimiterExclusion.AdmissionProbesThenEvicts` | crates/tensor-wasm-api/src/rate_limit.rs:569-595 | a request first probes its shard for reading; if it evicts, it does so before it takes any other lock |
| `LimiterExclusion.DecisionPoint` | crates/tensor-wasm-api/src/rate_limit.rs:595-643 | at its decision a request holds the shard and the mutex of every active layer for writing, and nothing else |
| `LimiterExclusion.DecidesAlone` | crates/tensor-wasm-api/src/rate_limit.rs:595-643 | in every interleaving two threads share a lock only for reading, and while a request decides nobody else holds anything that guards a bucket it decides on: both layers are checked and charged as one |
| `Envelope.LittleEndianRoundTrip` | crates/tensor-wasm-artifacts/src/lib.rs:2452-2518 | the version field reads back as written |
| `Envelope.LittleEndianInverse` | crates/tensor-wasm-artifacts/src/lib.rs:2566-2655 | four bytes are the encoding of the number they decode to |
| `Envelope.SealedLayout` | crates/tensor-wasm-artifacts/src/lib.rs:51-99 | where magic, version, hash, body and tag of a sealed envelope lie, and what the tag covers |
| `Envelope.SealedDecodes` | crates/tensor-wasm-artifacts/src/lib.rs:2566-2655 | a sealed payload within the cap decodes to itself under its key |
| `Envelope.DecodesIff` | crates/tensor-wasm-artifacts/src/lib.rs:2566-2655 | the decoder returns a payload if and only if length, magic and version, tag over all but the tag, body, cap and content hash all agree with it |
| `Envelope.HeaderOkIff` | crates/tensor-wasm-artifacts/src/lib.rs:2566-2600 | the header is accepted if and only if its first twenty bytes are the magic and the version |
| `Envelope.RefusedIff` | crates/tensor-wasm-artifacts/src/lib.rs:2566-2620 | exactly when each error before the body is answered: BadMagic, then BadVersion with the version found, then BadHmac |
| `Envelope.BodyRefusedIff` | crates/tensor-wasm-artifacts/src/lib.rs:2620-2655 | for authentic bytes exactly when Decompression, TooLarge and HashMismatch are answered, in this order |
| `Envelope.TopCapRefusesNoSize` | crates/tensor-wasm-artifacts/src/lib.rs:2613-2655 | with the largest 64-bit cap nothing is refused for its size: the probe saturates, and what is longer is cut off before the hash check |
| `Envelope.WrongKeyIsBadHmac` | crates/tensor-wasm-artifacts/src/lib.rs:2566-2655 | under a key with another tag nothing is decoded and the error is BadHmac |
| `EnvelopeReaders.MacReader.Read` | crates/tensor-wasm-artifacts/src/lib.rs:569-590 | every byte handed on was fed to the MAC: the MAC has seen exactly the file up to the position |
| `EnvelopeReaders.DriveDecoder` | crates/tensor-wasm-artifacts/src/lib.rs:1789-2074 | wherever the decoder stops reading its source, its result is that of the whole body and MAC and position stay in step |
| `EnvelopeReaders.Drain` | crates/tensor-wasm-artifacts/src/lib.rs:1789-2074 | after the drain the MAC has seen the whole prefix |
| `EnvelopeReaders.ReadHeader` | crates/tensor-wasm-artifacts/src/lib.rs:1350-1385 | header errors in the order of the one-shot decoder |
| `EnvelopeReaders.Get` | crates/tensor-wasm-artifacts/src/lib.rs:1789-2074 | streaming read refines the one-shot decoder: for every content, key, read sizes and stopping point of the decoder the same payload or the same error (BadHmac before Decompression before TooLarge before HashMismatch), then the requested hash |
| `EnvelopeReaders.CopyTo` | crates/tensor-wasm-artifacts/src/lib.rs:1595-1629 | whatever the writer accepts per call, it has received a prefix, and all of it when the copy succeeds; an interrupted write is tried again and recorded as a failure; the copy ends at the first write that fails or takes nothing |
| `EnvelopeReaders.VerifyBlob` | crates/tensor-wasm-artifacts/src/lib.rs:1350-1419 | accepts if and only if the header is right and the tag verifies; otherwise the error of the one-shot decoder |
| `EnvelopeReaders.DecodeToWriter` | crates/tensor-wasm-artifacts/src/lib.rs:1437-1514 | hands out a prefix of what the body decodes to; unless a write fails or takes nothing the result is that of the one-shot decoder on the body; a failed write is Io, one that takes nothing Decompression, and after an interrupted write Decompression becomes Io |
| `EnvelopeReaders.GetTo` | crates/tensor-wasm-artifacts/src/lib.rs:2076-2143 | nothing reaches the writer unless the content is authentic; unless a write fails or takes nothing it succeeds exactly when get does, with the same payload, length and errors; a failed write is Io, one that takes nothing Decompression, and after an interrupted write Decompression becomes Io; whatever is delivered is a prefix of what the body decodes to, at most one byte over the cap |
| `EnvelopeWriters.MacWriter.Write` | crates/tensor-wasm-artifacts/src/lib.rs:531-559 | the MAC is fed exactly the bytes the inner writer took, whatever it took |
| `EnvelopeWriters.MacWriter.WriteAll` | crates/tensor-wasm-artifacts/src/lib.rs:531-559 | under every sequence of short writes file and MAC both get the whole buffer |
| `EnvelopeWriters.Encoder.Feed` | crates/tensor-wasm-artifacts/src/lib.rs:1713-1716 | takes more input and hands on the next piece of the output, early or late as the encoder likes |
| `EnvelopeWriters.Encoder.Finish` | crates/tensor-wasm-artifacts/src/lib.rs:1717-1724 | hands on the rest: the pieces add up to the compressed total |
| `EnvelopeWriters.CompressInto` | crates/tensor-wasm-artifacts/src/lib.rs:1703-1724 | whenever the encoder emits, file and MAC both get the whole compressed body |
| `EnvelopeWriters.SealFile` | crates/tensor-wasm-artifacts/src/lib.rs:1740-1774 | the tag is appended after the flush and covers all that was written |
| `EnvelopeWriters.Put` | crates/tensor-wasm-artifacts/src/lib.rs:1632-1787 | accepts exactly up to MAX_PAYLOAD_LEN and then writes the sealed envelope of the payload |
| `EnvelopeWriters.Ingest` | crates/tensor-wasm-artifacts/src/lib.rs:1026-1090 | every chunking of the source gives the hash and the body of the whole source; the cap trips within one buffer of the limit |
| `EnvelopeWriters.PutFrom` | crates/tensor-wasm-artifacts/src/lib.rs:1026-1150 | for every chunking the same envelope and hash as put, and the same acceptance |
| `EnvelopeWriters.CopyBody` | crates/tensor-wasm-artifacts/src/lib.rs:1095-1130 | the spooled body is copied whole through the tee |
| `EnvelopeWriters.EncodeEnvelopeToWriter` | crates/tensor-wasm-artifacts/src/lib.rs:2452-2518 | appends the same envelope at the default level to whatever the sink holds, and nothing at all for a payload over the limit |
| `EnvelopeWriters.AcceptedPayloadsDecode` | crates/tensor-wasm-artifacts/src/lib.rs:75-99 | every payload the writers accept reads back under the default decompression cap |
| `BlobNames.HexInto` | crates/tensor-wasm-artifacts/src/lib.rs:160-166 | fills the buffer in place with the lower-case hexadecimal text of the bytes |
| `BlobNames.ParseHashHex` | crates/tensor-wasm-artifacts/src/lib.rs:2326-2337 | parses exactly the texts of the right length made of lower-case digits |
| `BlobNames.UnhexHex` | crates/tensor-wasm-artifacts/src/lib.rs:160-166 | parsing undoes printing |
| `BlobNames.HexUnhex` | crates/tensor-wasm-artifacts/src/lib.rs:2326-2347 | printing undoes parsing |
| `BlobNames.ParsesIff` | crates/tensor-wasm-artifacts/src/lib.rs:2312-2320 | a file name parses to a hash and a fingerprint if and only if it is the name printed for them |
| `BlobNames.BlobNameInjective` | crates/tensor-wasm-artifacts/src/lib.rs:862-865 | two names are equal only for equal hash and fingerprint |
| `BlobNames.SidecarNeverParses` | crates/tensor-wasm-artifacts/src/lib.rs:882-889 | the name of a metadata sidecar never parses as a blob |
| `ArtifactStore.AcceptedKeys` | crates/tensor-wasm-artifacts/src/lib.rs:405-417 | a key is accepted for reads exactly when it is the active one or one of those supplied |
| `ArtifactStore.ActiveFirst` | crates/tensor-wasm-artifacts/src/lib.rs:408-416 | the active key is probed first, whatever the retired keys hold |
| `ArtifactStore.FingerprintsClash` | crates/tensor-wasm-artifacts/src/lib.rs:512-520 | a fingerprint is sixteen digits that read back as the first eight bytes of the hash of the key; two keys share one exactly if their hashes agree there |
| `ArtifactStore.RetiredInOrder` | crates/tensor-wasm-artifacts/src/lib.rs:408-416 | then the retired keys in the order supplied |
| `ArtifactStore.HoldersLaws` | crates/tensor-wasm-artifacts/src/lib.rs:1523-1545 | the namespaces holding a hash, without repetition, are exactly the accepted ones with a file |
| `ArtifactStore.ResolveFirst` | crates/tensor-wasm-artifacts/src/lib.rs:1523-1545 | the probe finds the first holder in read order, and fails only if there is none |
| `ArtifactStore.ContainsIff` | crates/tensor-wasm-artifacts/src/lib.rs:2231-2242 | a hash resolves if and only if some accepted namespace holds it |
| `ArtifactStore.NamesAfter` | crates/tensor-wasm-artifacts/src/lib.rs:2244-2300 | unlinking a blob and its sidecar leaves every other blob name |
| `ArtifactStore.RemovalTakesFirstHolder` | crates/tensor-wasm-artifacts/src/lib.rs:2244-2300 | one removal takes the first holder of that hash and no holder of any other |
| `ArtifactStore.HoldersAfterTimes` | crates/tensor-wasm-artifacts/src/lib.rs:2244-2300 | n removals take the first n holders |
| `ArtifactStore.RemoveUntilFalse` | crates/tensor-wasm-artifacts/src/lib.rs:2244-2300 | removal succeeds exactly as often as there are accepted namespaces holding the hash |
| `ArtifactStore.ForEachBlob` | crates/tensor-wasm-artifacts/src/lib.rs:1265-1328 | the scan lists every visible blob once: parseable name, accepted fingerprint, minimum length |
| `ArtifactStore.Fingerprints` | crates/tensor-wasm-artifacts/src/lib.rs:2145-2160 | the set of accepted fingerprints |
| `ArtifactStore.ListHashes` | crates/tensor-wasm-artifacts/src/lib.rs:2145-2229 | the duplicate-free set of hashes with a visible blob |
| `ArtifactStore.ListedIff` | crates/tensor-wasm-artifacts/src/lib.rs:2145-2242 | a hash is listed exactly when one of its holders is long enough to be an envelope; what is listed is contained |
| `ArtifactStore.DiskArtifactStore.Put` | crates/tensor-wasm-artifacts/src/lib.rs:1632-1787 | an accepted payload is published under the active key and nothing else changes; a refused one changes nothing |
| `ArtifactStore.DiskArtifactStore.PutFrom` | crates/tensor-wasm-artifacts/src/lib.rs:1026-1150 | the same for a streamed source |
| `ArtifactStore.DiskArtifactStore.ResolveReadKey` | crates/tensor-wasm-artifacts/src/lib.rs:1523-1545 | path and key of the first accepted key that holds the hash |
| `ArtifactStore.DiskArtifactStore.Get` | crates/tensor-wasm-artifacts/src/lib.rs:1789-2074 | the envelope of the active key if it holds the hash, otherwise that of a retired accepted key, decoded under its key; NotFound exactly when none holds it |
| `ArtifactStore.DiskArtifactStore.Contains` | crates/tensor-wasm-artifacts/src/lib.rs:2231-2242 | true if and only if the active key or one of the others supplied holds the hash |
| `ArtifactStore.DiskArtifactStore.Remove` | crates/tensor-wasm-artifacts/src/lib.rs:2244-2300 | true if and only if the active key or one of the others supplied holds the hash; then the blob of one of them, the active one if it is among them, and its sidecar are gone and nothing else |
| `ArtifactStore.DiskArtifactStore.List` | crates/tensor-wasm-artifacts/src/lib.rs:2145-2229 | exactly the hashes held, in a file long enough to be an envelope, by the active key or one of the others supplied |
| `StoreRotation.PutKeepsGenuine` | crates/tensor-wasm-artifacts/src/lib.rs:862-889 | a put keeps every file the sealed envelope of some stored payload under the key its name says |
| `StoreRotation.HistoryIsGenuine` | crates/tensor-wasm-artifacts/src/lib.rs:340-417 | and so does every history of puts under rotating keys, removals and unlinks |
| `StoreRotation.RotationRoundTrip` | crates/tensor-wasm-artifacts/src/lib.rs:387-417 | a payload put under any accepted key is returned by get after rotation, whichever accepted copy is found |
| `StoreRotation.ProviderRoundTrip` | crates/tensor-wasm-artifacts/src/lib.rs:387-417 | the same for a rotating provider: its active key or any retired one it still accepts |
| `StoreRotation.SharedFingerprintReadsIff` | crates/tensor-wasm-artifacts/src/lib.rs:1523-1545 | without distinct fingerprints: a fresh blob that resolves to another key of the same fingerprint reads back if and only if both keys give it the same tag, and is refused otherwise |
| `StoreGc.HoldersAfterEach` | crates/tensor-wasm-artifacts/src/lib.rs:2244-2300 | a list of removals takes, of each hash, as many holders from the front as the list names it |
| `StoreGc.HoldersLeft` | crates/tensor-wasm-artifacts/src/lib.rs:1180-1197 | what is left of a hash after removing a set of blobs by hash |
| `StoreGc.RemovalSucceeds` | crates/tensor-wasm-artifacts/src/lib.rs:1180-1197 | removing distinct visible blobs by hash finds something every time |
| `StoreGc.SelectOlder` | crates/tensor-wasm-artifacts/src/lib.rs:1180-1190 | the candidates are exactly the visible blobs with readable modification time before the cutoff |
| `StoreGc.PruneOlderThan` | crates/tensor-wasm-artifacts/src/lib.rs:1180-1197 | removes once by hash for each such blob, and counts them all; when no hash is held twice, a blob is gone exactly when its modification time is readable and before the cutoff, and has its file untouched otherwise |
| `StoreGc.AgeStageExactIff` | crates/tensor-wasm-artifacts/src/lib.rs:1180-1197 | a stage removes exactly the chosen blobs if and only if, for every hash, the chosen holders come first in read order |
| `StoreGc.SingleHolderPrunesExactly` | crates/tensor-wasm-artifacts/src/lib.rs:1180-1197 | in particular when no hash is held under two accepted keys |
| `StoreGcSize.SameFootprint` | crates/tensor-wasm-artifacts/src/lib.rs:1161-1168 | the footprint does not depend on the order of the scan |
| `StoreGcSize.TotalBytes` | crates/tensor-wasm-artifacts/src/lib.rs:1161-1168 | the sum of the lengths of all visible blobs, for every order in which they may be listed |
| `StoreGcSize.SortedScan` | crates/tensor-wasm-artifacts/src/lib.rs:1227-1240 | the visible blobs from old to new, an unreadable time counting as the epoch |
| `StoreGcSize.EvictOldest` | crates/tensor-wasm-artifacts/src/lib.rs:1227-1252 | evicts by hash for a prefix of the blobs from old to new, the shortest whose rest fits the budget |
| `StoreGcSize.FitExists` | crates/tensor-wasm-artifacts/src/lib.rs:1227-1252 | every list of blobs has a least prefix whose rest fits the budget |
| `StoreGcSize.ScanExists` | crates/tensor-wasm-artifacts/src/lib.rs:1265-1328 | every directory can be listed from old to new |
| `StoreGcRun.ExactApart` | crates/tensor-wasm-artifacts/src/lib.rs:1215-1256 | if both stages together are exact, each one is |
| `StoreGcRun.TogetherIff` | crates/tensor-wasm-artifacts/src/lib.rs:1215-1256 | both stages together remove exactly the victims and the evicted survivors if and only if, for every hash, these come first in read order |
| `StoreGcRun.SurvivorsListed` | crates/tensor-wasm-artifacts/src/lib.rs:1227-1240 | once the age stage is exact, the size stage lists exactly its survivors, with the same ages and the same least prefix |
| `StoreGcRun.CollectedIff` | crates/tensor-wasm-artifacts/src/lib.rs:1215-1256 | a run removes precisely the right files, reports the right bytes and ends within the budget if and only if, for every hash, its victims come first in read order, and so do victims and evicted copies together |
| `StoreGcRun.AlwaysCollectedIff` | crates/tensor-wasm-artifacts/src/lib.rs:1215-1256 | every run from a directory collects correctly if and only if the directory is in read order, for every way to order blobs of the same age: a condition on the starting directory alone |
| `StoreGcRun.OldestGoFirst` | crates/tensor-wasm-artifacts/src/lib.rs:1215-1256 | file by file: what a correct collection keeps is not before the cutoff, and what it takes is before the cutoff or was modified no later than anything it keeps |
| `StoreGcRun.SingleHolderInReadOrder` | crates/tensor-wasm-artifacts/src/lib.rs:1215-1256 | a directory that holds no hash under two accepted keys is in read order |
| `StoreGcRun.Gc` | crates/tensor-wasm-artifacts/src/lib.rs:1215-1256 | whatever the directory holds: once by hash for every victim, then once by hash for each of the least prefix of what is visible, from old to new, whose rest fits, counts of both, and the footprint of what is left; and a correct collection whenever the directory is in read order |
| `StoreGcRun.SharedHashOverrunsBudget` | crates/tensor-wasm-artifacts/src/lib.rs:1227-1252 | a family of stores with a hash under two keys where the size stage removes the wrong copy and stops over budget |
| `StoreInterleaving.SettledStays` | crates/tensor-wasm-artifacts/src/lib.rs:1764-1774 | a file that is no longer being written never changes again, whatever step anyone takes |
| `StoreInterleaving.InvStep` | crates/tensor-wasm-artifacts/src/lib.rs:1350-1514 | every step of every writer, reader and removal keeps the invariant |
| `StoreInterleaving.InvAlways` | crates/tensor-wasm-artifacts/src/lib.rs:1350-1514 | the invariant holds in every reachable state |
| `StoreInterleaving.OnlyAuthenticBytes` | crates/tensor-wasm-artifacts/src/lib.rs:2076-2143 | in every interleaving what a reader has open is a file of the start or the whole envelope of a put, and every byte it handed out comes from open content whose tag verified under its key |
| `StoreInterleaving.FetchedIsPushed` | crates/tensor-wasm-artifacts/src/lib.rs:1437-1514 | when a read succeeds, what was pushed to the writer is the payload |
| `StoreInterleaving.OutcomeIsOfPinnedContent` | crates/tensor-wasm-artifacts/src/lib.rs:2076-2143 | a reader that ends without a writer fault reports exactly what get on its pinned inode reports (after an interrupted write, Io for Decompression), delivers the payload on success and nothing when refused |
| `StoreInterleaving.PinnedContentIsStable` | crates/tensor-wasm-artifacts/src/lib.rs:2076-2143 | no step changes content a reader has open |
| `StoreProgress.WriterPublishes` | crates/tensor-wasm-artifacts/src/lib.rs:1740-1774 | from wherever it stands in any interleaving, a writer can finish its envelope and publish it whole under its name, changing no other name and no reader |
| `StoreProgress.ProbesInOrder` | crates/tensor-wasm-artifacts/src/lib.rs:1523-1545 | a reader takes the first of its keys under which the hash is there, and misses if there is none |
| `StoreProgress.ReadsAlone` | crates/tensor-wasm-artifacts/src/lib.rs:2076-2143 | a reader whose key has the file gets from it exactly what a read of its content gives: the payload and its length, or the error |
| `StoreProgress.PublishedIsRead` | crates/tensor-wasm-artifacts/src/lib.rs:1764-2143 | what a writer publishes, a reader with its key then reads back |
| `StreamWriter.PopDelivers` | crates/tensor-wasm-api/src/routes.rs:2110-2195 | taking one chunk from the channel extends the delivered prefix by exactly that chunk |
| `StreamWriter.InvStep` | crates/tensor-wasm-api/src/routes.rs:2110-2195 | every step of guest, executor and writer keeps the invariant, for both writers |
| `StreamWriter.InvRun` | crates/tensor-wasm-api/src/routes.rs:2110-2195 | so does every run |
| `StreamWriter.StreamDelivery` | crates/tensor-wasm-api/src/routes.rs:2110-2195 | in every interleaving the data frames are the sent chunks in order, a prefix while streaming; from the terminal frame on all of them are out and nothing is buffered; there is exactly one terminal frame, followed by one [DONE] in the OpenAI flavour only |
| `StreamWriter.CompletionDrains` | crates/tensor-wasm-api/src/openai.rs:799-909 | once the signal is there, the writer can always move and each step emits a frame of a decreasing number left or uses up a bounded number of silent steps |
| `StreamWriter.WriterNeverBlockedByChunks` | crates/tensor-wasm-api/src/routes.rs:2110-2195 | a writer with chunks in the channel can move, and a poll takes the first of them |
| `StreamWriter.CompletionEnds` | crates/tensor-wasm-api/src/openai.rs:799-909 | from every reachable state after completion the writer alone reaches the end |
| `StreamWriter.GuestMaySendIff` | crates/tensor-wasm-api/src/routes.rs:1844-1854 | after any run the guest may send exactly if it has not dropped the sender, completion was not signalled and fewer than the buffer of its chunks are undelivered; what counts as sent is what its sends say, in order |
| `StreamWriter.WriterParks` | crates/tensor-wasm-api/src/routes.rs:2120-2145 | with the channel drained and closed the next poll parks the writer until the signal; with the sender alive it comes back to where it was |
| `StreamWriter.EveryResponseArises` | crates/tensor-wasm-api/src/routes.rs:2110-2195 | for any chunks, however many, and any completion there is a run whose response is just that |
| `JobRegistry.SortedIds` | crates/tensor-wasm-api/src/routes.rs:540-572 | all ids once, terminal jobs first, then by age |
| `JobRegistry.DropFirst` | crates/tensor-wasm-api/src/routes.rs:540-572 | removes exactly a prefix of them |
| `JobRegistry.PrefixEviction` | crates/tensor-wasm-api/src/routes.rs:540-572 | dropping a prefix of that order evicts only records that precede every survivor |
| `JobRegistry.Registry.EvictJobsIfOverCap` | crates/tensor-wasm-api/src/routes.rs:540-572 | exactly the overflow goes, evicted records precede survivors, survivors are untouched |
| `JobRegistry.Registry.Dispatch` | crates/tensor-wasm-api/src/routes.rs:1724-1737 | the new record is pending, and afterwards the cap holds |
| `JobRegistry.Registry.Complete` | crates/tensor-wasm-api/src/routes.rs:1780-1795 | if the record is still there it gets status Completed or Failed as the call ended and the outcome as its result; tenant, time and all other records stay |
| `JobRegistry.PendingEvictedLast` | crates/tensor-wasm-api/src/routes.rs:540-572 | a pending job is evicted only when no terminal one survives, and only the oldest pending ones |
| `JobRegistry.OldestEvictedFirst` | crates/tensor-wasm-api/src/routes.rs:540-572 | among finished records, and among pending ones, no evicted record is younger than a survivor |
| `JobRegistry.InvHolds` | crates/tensor-wasm-api/src/routes.rs:1724-1795 | in every run recorded ids were issued, the cap holds, and every record has a result exactly when it has ended, of the kind its status says |
| `JobRegistry.CompletionWrites` | crates/tensor-wasm-api/src/routes.rs:1780-1795 | in a run the end of a call is written to its record, whole and to nothing else |
| `JobRegistry.DispatchRecords` | crates/tensor-wasm-api/src/routes.rs:1724-1737 | a dispatched job is recorded as pending, without a result, for its tenant and time, and stays if there is room |
| `JobRegistry.EvictedStaysGone` | crates/tensor-wasm-api/src/routes.rs:540-572 | an evicted id never reappears |
| `JobRegistry.EndsOnce` | crates/tensor-wasm-api/src/routes.rs:1757-1809 | a task ends once, by completing or by a panic, and its id is never handed out again |
| `JobRegistry.AtWorkIff` | crates/tensor-wasm-api/src/routes.rs:1757-1809 | in every run the tasks at work are those of the jobs that were dispatched and have neither completed nor panicked |
| `JobRegistry.PanickedStaysPending` | crates/tensor-wasm-api/src/routes.rs:1757-1809 | a job whose task panicked stays pending as long as its record is retained |
| `JobRegistry.TerminalIsFinal` | crates/tensor-wasm-api/src/routes.rs:1780-1795 | a job that reached a terminal state never changes again |
| `JobRegistry.CapHolds` | crates/tensor-wasm-api/src/routes.rs:1724-1737 | the cap holds after every step of every run |
| `GatewayRegistry.IsolatedAlways` | crates/tensor-wasm-api/src/routes.rs:1264-1321 | in every interleaving of create, delete, invoke, complete and poll, records belong to the tenant that made them and every handler past its check holds an id of its own tenant |
| `GatewayRegistry.PollsSeeOwnJobs` | crates/tensor-wasm-api/src/routes.rs:2346-2365 | a poll returns the current record, or nothing if it was evicted in between, and never a job of another tenant, although it checks in one lookup and reads in another |
| `GatewayRegistry.ChecksAreExact` | crates/tensor-wasm-api/src/routes.rs:1301-1316 | delete, poll and invoke answer NotFound exactly for ids that are not there, Forbidden exactly for ids issued to another tenant, and go on otherwise |
| `GatewayRegistry.FunctionsChangeByOwner` | crates/tensor-wasm-api/src/routes.rs:1264-1321 | in every interleaving a function disappears at a step if and only if the step is the removal of a delete of that function by its own tenant; a function appears only by a create, under an id nobody ever had; records never change |
| `GatewayRegistry.GoneForGood` | crates/tensor-wasm-api/src/routes.rs:1264-1321 | what was deleted or evicted never comes back, and an id keeps its tenant |
| `GatewayRegistry.OneInChargeAlways` | crates/tensor-wasm-api/src/routes.rs:1757-1795 | each job has at most one task in charge and is pending while it has one |
| `GatewayRegistry.StepOnJobs` | crates/tensor-wasm-api/src/routes.rs:1780-1795 | a record changes only by its own task, from pending to what the call returned |
| `GatewayRegistry.ResolvedOnce` | crates/tensor-wasm-api/src/routes.rs:1780-1795 | in every interleaving, with panics and evictions, a resolved job never changes again |
| `GatewayRegistry.TaskWrites` | crates/tensor-wasm-api/src/routes.rs:1780-1795 | in every interleaving the task of a job writes how its call ended to the record, whole, and to no other record |
| `GatewayRegistry.PollsReturnTheOutcome` | crates/tensor-wasm-api/src/routes.rs:2346-2365 | every later poll that passes its check returns just that, as long as the record is not evicted |
| `GatewayRegistry.DispatchRecords` | crates/tensor-wasm-api/src/routes.rs:1724-1737 | a dispatch records its job under a new id as pending, without a result, for its tenant and time, and changes nothing else |
| `GatewayRegistry.RecordAfter` | crates/tensor-wasm-api/src/routes.rs:1724-1795 | at any step a record is new and pending, is resolved by the task in charge of it, or is as it was |
| `GatewayRegistry.ReissuedIdBreaksIsolation` | crates/tensor-wasm-api/src/routes.rs:1289-1321 | fresh ids are essential: with an id issued again, a delete that had passed its check removes the function of another tenant |
| `GatewayRegistry.GaugeStep` | crates/tensor-wasm-api/src/routes.rs:1698-1720 | one step moves the gauge exactly as it moves the number of live guards |
| `GatewayRegistry.GaugeConservation` | crates/tensor-wasm-api/src/routes.rs:1588-1629 | in every run, with panics and cancellations, the gauge is the number of live guards, and zero at quiescence |
| `GatewayRegistry.AdmissionIff` | crates/tensor-wasm-api/src/routes.rs:1698-1720 | an owner-checked invocation is refused for capacity exactly when MAX_OUTSTANDING_ASYNC_JOBS guards are live, and goes on otherwise |
| `GatewayRegistry.SoftAdmissionBound` | crates/tensor-wasm-api/src/routes.rs:1698-1720 | with at most K handlers between check and increment the gauge never exceeds MAX_OUTSTANDING_ASYNC_JOBS - 1 + K |
| `GatewayRegistry.JobsActiveGuard.constructor` | crates/tensor-wasm-api/src/routes.rs:1592-1602 | taking a guard counts one up |
| `GatewayRegistry.JobsActiveGuard.Release` | crates/tensor-wasm-api/src/routes.rs:1604-1610 | releasing counts one down and disarms the drop |
| `GatewayRegistry.JobsActiveGuard.Drop` | crates/tensor-wasm-api/src/routes.rs:1613-1629 | dropping counts down unless the guard was released |
| `GatewayJobCap.PlanFits` | crates/tensor-wasm-api/src/routes.rs:540-560 | a pass that removes the overflow it counted leaves at most the cap and what was recorded since its count |
| `GatewayJobCap.CapStep` | crates/tensor-wasm-api/src/routes.rs:540-572 | every step of every handler keeps that |
| `GatewayJobCap.CapAlways` | crates/tensor-wasm-api/src/routes.rs:540-572 | in every interleaving the records exceed the cap at most by the jobs recorded since the latest count of a finished pass, all of whose handlers are still in their pass |
| `GatewayJobCap.SoftJobCap` | crates/tensor-wasm-api/src/routes.rs:533-572 | in every interleaving of record, count, listing and removals the registry holds at most MAX_JOB_RECORDS records, one more for every handler between these steps, and one more for every aborted pass that no later finished pass has made up for |
| `GatewayLifecycle.PassPicksFinishedThenOldest` | crates/tensor-wasm-api/src/routes.rs:540-572 | in every interleaving a pass picks exactly the overflow it read, as far as there are records, a pending job only if every finished one is picked, and the oldest of each kind |
| `GatewayLifecycle.OnlyPicksAreEvicted` | crates/tensor-wasm-api/src/routes.rs:540-572 | in every interleaving a record goes at a step if and only if the step is a removal of a pass that had picked it |
| `GatewayLifecycle.PickExists` | crates/tensor-wasm-api/src/routes.rs:540-572 | whatever a pass read, there is such a pick |
| `GatewayLifecycle.NeverStuck` | crates/tensor-wasm-api/src/routes.rs:1264-1809 | in every state of every run every handler can take its next step, whatever the others have done |
| `GatewayLifecycle.StreamLeavesNoRecord` | crates/tensor-wasm-api/src/routes.rs:1932-2104 | a streamed invocation of an own function below capacity raises the gauge, makes no record, and leaves everything as it was |
| `GatewayLifecycle.AsyncLeavesItsOutcome` | crates/tensor-wasm-api/src/routes.rs:1665-1809 | an async invocation with room first records a pending job and ends with exactly that record telling how the call ended, and the gauge back |
| `GatewayLifecycle.DeleteUndoesCreate` | crates/tensor-wasm-api/src/routes.rs:1264-1321 | deleting what was just created returns its record and leaves the functions as they were |
| `TokenScope.ParseTenantList` | crates/tensor-wasm-api/src/token_scope.rs:214-242 | the first malformed fragment is reported; a wildcard alone gives everything, ids alone their set, both together an error |
| `TokenScope.ParseTokenEntry` | crates/tensor-wasm-api/src/token_scope.rs:182-246 | bearer and scope of an entry, or the error of the first rule it breaks |
| `TokenScope.GlueFragments` | crates/tensor-wasm-api/src/token_scope.rs:273-315 | the loop over fragments computes the re-glued entries |
| `TokenScope.ParseTokensEnv` | crates/tensor-wasm-api/src/token_scope.rs:262-341 | accepted entries in order, a later one replacing an earlier one with the same bearer, malformed ones dropped, bare ones counted |
| `TokenScope.BlankHasNoEntries` | crates/tensor-wasm-api/src/token_scope.rs:262-266 | a blank value has no entries, so the early return changes nothing |
| `TokenScopeLaws.ReGlueConserves` | crates/tensor-wasm-api/src/token_scope.rs:273-315 | for every input the comma-splits of the entries are exactly its non-empty trimmed fragments in order |
| `TokenScopeLaws.EntriesShaped` | crates/tensor-wasm-api/src/token_scope.rs:273-315 | every entry is trimmed and not empty, and holds a comma only after a colon |
| `TokenScopeLaws.AcceptedEntry` | crates/tensor-wasm-api/src/token_scope.rs:182-246 | an accepted entry has a non-empty bearer without comma or colon, and never an empty tenant set |
| `TokenScopeLaws.ListScopeNotEmpty` | crates/tensor-wasm-api/src/token_scope.rs:214-242 | an accepted list never grants the empty set |
| `TokenScopeLaws.CollectLaws` | crates/tensor-wasm-api/src/token_scope.rs:318-340 | the same of everything collected, and the deprecated count is the number of bare entries |
| `TokenScopeLaws.OutputInvariants` | crates/tensor-wasm-api/src/token_scope.rs:262-341 | for every input: bearers non-empty and free of comma and colon, explicit tenant sets non-empty, deprecated count exact |
| `TokenScopeLaws.CollectKeys` | crates/tensor-wasm-api/src/token_scope.rs:318-340 | the bearers are those of the bare and of the accepted scoped entries |
| `TokenScopeLaws.LegacyCountBoundedIff` | fuzz/fuzz_targets/token_scope_parser.rs:112-117 | the count is at most the size of the map if and only if the repetitions among bare entries are no more than the bearers that are only scoped |
| `TokenScopeLaws.LegacyCountBoundedWhenDistinct` | fuzz/fuzz_targets/token_scope_parser.rs:112-117 | so it is when no bare bearer is repeated |
| `TokenScopeLaws.RepeatedBareBreaksTheBound` | fuzz/fuzz_targets/token_scope_parser.rs:112-117 | an input for which the bound fails |
| `TokenScopeGrammar.ListAcceptedIff` | crates/tensor-wasm-api/src/token_scope.rs:214-242 | a list is accepted exactly when all its fragments are wildcards, for everything, or all are ids, for exactly these |
| `TokenScopeGrammar.ListRefusedIff` | crates/tensor-wasm-api/src/token_scope.rs:214-242 | otherwise the first malformed fragment is the error, or the mixture of wildcard and ids |
| `TokenScopeGrammar.EntryAcceptedIff` | crates/tensor-wasm-api/src/token_scope.rs:182-246 | an entry is accepted exactly when it is a bearer alone, for everything, or a non-empty bearer, the key tenant and a non-empty list, for what the list grants |
| `TokenScopeGrammar.EntryRefusedFor` | crates/tensor-wasm-api/src/token_scope.rs:182-246 | every other entry is refused for the first rule it breaks: text, bearer, key, list, fragments, mixture |
| `TokenScopeText.SpaceIff` | crates/tensor-wasm-api/src/token_scope.rs:183-184 | what trimming cuts off: exactly the white space of Unicode |
| `TokenScopeText.TrimIff` | crates/tensor-wasm-api/src/token_scope.rs:183-184 | trimming takes away all white space at both ends and nothing else |
| `TokenScopeText.ParseU64Iff` | crates/tensor-wasm-api/src/token_scope.rs:224-236 | exactly the decimal numerals of 64-bit numbers are ids, with leading zeros and a plus sign allowed, each of the number it denotes |
| `TokenScopeText.OpensListIff` | crates/tensor-wasm-api/src/token_scope.rs:307-310 | a fragment opens a tenant list exactly when a colon, white space and tenant= follow its bearer |
| `TokenScopeText.ReGlueExactly` | crates/tensor-wasm-api/src/token_scope.rs:273-315 | for every input: a fragment belongs to an earlier one exactly when that one opens a list and all since are ids or wildcards; every other fragment that is not blank begins an entry, which is that fragment and those that belong to it |
| `TokenScopeRoundTrip.EnvFragments` | crates/tensor-wasm-api/src/token_scope.rs:262-272 | splitting a printed value gives back the fragments of its grants |
| `TokenScopeRoundTrip.GlueGrant` | crates/tensor-wasm-api/src/token_scope.rs:273-315 | re-gluing the fragments of one grant: it is restored, unless it is bare, looks like a tenant and follows a list |
| `TokenScopeRoundTrip.GlueAll` | crates/tensor-wasm-api/src/token_scope.rs:273-315 | without such a clash the entries are the printed grants |
| `TokenScopeRoundTrip.GlueCount` | crates/tensor-wasm-api/src/token_scope.rs:273-315 | with clashes exactly that many bare entries are lost |
| `TokenScopeRoundTrip.EntryRoundTrip` | crates/tensor-wasm-api/src/token_scope.rs:182-246 | a printed grant parses to its bearer and scope |
| `TokenScopeRoundTrip.CollectRendered` | crates/tensor-wasm-api/src/token_scope.rs:318-340 | collecting printed grants gives their map and their bare count |
| `TokenScopeRoundTrip.RoundTripIff` | crates/tensor-wasm-api/src/token_scope.rs:262-341 | printing grants with distinct bearers and parsing recovers them if and only if no bare bearer that is * or a u64 directly follows a scoped one |
| `TokenScopeRoundTrip.AccessIff` | crates/tensor-wasm-api/src/token_scope.rs:57-62 | after parsing, a scoped bearer may act for exactly the tenants printed for it, any other for all |

## Left out

- The rounding of `f64` in the limiter, and NaN or infinite configuration values: permits, rates and time are exact reals.
- The overflow of instants and durations: instants are reals, and the elapsed time is zero when the clock went back.
- Each bucket as a mutex cell of its own: the limiter's maps hold buckets by value; the locks are modelled separately as traces in `LimiterLocks` and `LimiterExclusion`.
- DashMap internals: a scan is assumed to hold one shard lock at a time, hand over hand, and one operation on one key to be atomic.
- DashMap scans that are not atomic: a request's scan of its token's buckets and a pass's listing of the job records are one step each in `LimiterCapRace` and `GatewayJobCap`.
- The internals of BLAKE3, HMAC-SHA256, zstd and the constant-time comparison: parameters, as described above.
- I/O faults of the file system: the only fault modelled is that of the writer handed to `get_to`. The branch of `get` for reading past the signed prefix cannot be reached and is not modelled.
- GetTo: the caller's writer is interrupted finitely often, a number that is a parameter of the writer.
- Durability: fsync, directory sync, temporary file names and their cleanup. Rename is atomic, unlink leaves open handles valid.
- The fingerprint cache `fp_cache`, a memo of a pure function.
- The subtraction of `max_age` from the current time in `gc`: the cutoff is a parameter, absent when there is no age limit.
- The saturation of byte totals at 64 bits: totals are natural numbers.
- The contents of the metadata sidecars: only their names, and that removal unlinks them.
- `InMemoryArtifactStore` (a map from hash to payload), `put_with_metadata` (a put and a sidecar) and `encode_envelope_to_vec` (the same envelope built in memory): nothing modelled here calls them.
- StreamDelivery: the guest's sends precede its completion signal, as the executor task orders them; keep-alive comments and a client that disconnects are not modelled.
- GaugeConservation: the gauge is an integer that is proved to count live guards; the cast to `usize` at the admission check is therefore not modelled.
- ErasureIsUnobservable: stated for runs that request at most MAX_TENANTS_PER_TOKEN pairs per token, since beyond that a rejected request can evict a bucket that is not full (`InvisibleIff` says exactly when one does).
- Configuration from the environment, token hashing, the HTTP middleware, error envelopes and status codes, tracing and metrics encoding: they turn values of this model into text or headers, or the other way round, and no state of the model depends on them.
- Execution of WebAssembly, snapshots, kernels, the OpenAI request translation and the buffered OpenAI response: other components.
