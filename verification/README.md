# Tellstone, modelled and proved in Dafny

Tellstone is a sharded in-memory key/value store with a write-ahead log per shard. This
project models the parts where correctness is hard to see from one function, and proves what
holds of every input, every run and every crash point.

- **Crash recovery** (`Wal`, `Replay`, `Snapshot`, `ShardRun`, `ShardSafety`, `ShardHistory`,
  `Ceiling`, `Migration`, `MigratedShard`, `ShardHandle`, `Runner`, `ShardLink`, `CeilingLink`). The
  log in its two byte formats, torn-tail truncation, snapshot plus log recovery, in-place migration
  to the encrypted format, and the nonce counter kept by the log and its sidecar file. `ShardRun` is
  a machine whose steps are the file-system steps of the code (a start-up is three: rebuild, persist
  the counter, trim), with a crash possible between any two and inside any write; a run starts from
  a new shard or from what a migration leaves. `ShardHistory` ties what clients were answered to the
  engine and to what any number of crashes leave; `Ceiling` is replay under a memory limit.
  `ShardHandle` and `Runner` are the objects of the source with their loops, and `ShardLink` and
  `CeilingLink` prove that their operations are runs of the machines.
- **Timed storage** (`Wheel`, `TimedStore`, `Engine`, `Capacity`). The engine with lazy eviction,
  wrapping 64-bit accounting and a memory ceiling, the slot wheel with stale entries, and N shards behind the hash
  router against one timed map.
- **Key rotation** (`Rewrap`). Classification, preparation, one atomic replacement at a time,
  with a budget of disk steps that can run out anywhere.
- **TLS 1.3 record layer** (`TlsRecord`, `TlsConn`, `TlsRun`). Nonce masking, sequence numbers,
  fragmentation, padding, key updates, and two endpoints, each with its own rule for moving on,
  in lock-step (sections 4.6.3, 5.1 to 5.4 and 7.2 of RFC 8446).
- **Wire formats and connections** (`Resp`, `RespRun`, `RespSafety`, `RespServer`, `Codec`,
  `NetCodec`). The incremental RESP2 parser, the connection with AUTH verified off the event
  loop, and the length-prefixed admin payloads.
- **Access control** (`Bitset`, `Rbac`, `Policy`, `AclLog`). Role rules compiled to a bitset and
  a whitelist, policy mutations, and the ACL LOG ring restored from audit files.

`Bytes` and `Aead` hold byte strings, integer widths and the sealing primitives. Ciphers, hashes
and the key schedule are parameters: every theorem about sealed data quantifies over all
functions that satisfy "opening what was sealed gives the plaintext", and such functions exist
(`Aead.TransparentIsLawful`, `TlsRun.SecretsCanDiffer`, `Rewrap.LawfulCryptoExists`). Clocks,
randomness, crash points, worker verdicts and policy snapshots are parameters too.

Each mutable object of the source is a class here, and its methods are proved against functions on
values. The run theorems about a shard, a migration, a shard with a memory ceiling and a TLS link
speak of machines whose events are smaller than a method call or span two objects; `ShardLink`
(shard and migration), `CeilingLink` (ceiling) and the last section of `TlsRun` (link) prove that
the methods take exactly those steps. `Capacity.Perform` does the same for engine calls, and
`RespServer` carries its run in its invariant.

## What turned out false of the code, and exactly when it holds

- Recovery shows what the live map showed if and only if, for every logged key, the last write is
  replayed, or has expired and leaves no older value to come back. Replay skips a SET whose deadline
  has come: an older value of the key then returns, and at the very instant of the deadline, when
  reads still show the SET, the key is lost even without an older value (`Replay.RecoveryExact`,
  `Replay.ExpiredOverwriteResurrects`, `Replay.DeadlineInstantLost`).
- A shard reopens after a crash if and only if the crash did not leave 1 to 3 bytes of file, and,
  for a plaintext log, the first key's length does not read as the encrypted log's magic. The
  snapshot a run left never stands in the way (`ShardSafety.PlainOpenRefusedExactly`,
  `ShardSafety.SealedOpenRefusedExactly`; `ShardSafety.TornLengthRefuses` and
  `ShardSafety.TornMagicRefuses` are runs that end there). A migration of a log that never held a
  record can end there too (`Migration.TornMagicSticks`).
- `TruncateWALTo` keeps the bytes before its offset, not the bytes after it as the comments
  suggest. A cut inside the log keeps the recovered map if and only if, for every key in the kept
  part, its last effect there is its final one (`Replay.TailCutExact`). `Snapshot` passes the
  current size, so it cuts nothing.
- A snapshot written before a migration carries no key fingerprint. The migrated shard loads if and
  only if there is none, or a later snapshot under the new key has replaced it
  (`Migration.SnapshotBlocksMigratedShard`).
- A write rejected for memory is already in the log, and replay meets the same guard. While no
  deadline has passed, a log restarts under the same ceiling if and only if no write was ever
  rejected; a tombstone written to undo the rejected one is never reached
  (`Ceiling.RestartIffNoneRejected`, `CeilingLink.Restarts`,
  `Ceiling.RejectedWriteBlocksRestart`). Under a higher ceiling,
  the log with the tombstone shows the engine's map if and only if the key was not visible, and
  without it if and only if the rejected item shows what the key showed (`Ceiling.RejectedWrite`).
- A snapshot can keep a shard from starting although nothing was rejected, because the whole log is
  replayed over it and the guard does not credit the bytes an update frees
  (`Ceiling.SnapshotOverfills`). Snapshot and log load if and only if every unexpired entry, and then
  every record replay stores, finds room beside those before it (`Snapshot.LoadUnderIff`,
  `Ceiling.UnderIff`, `Runner.Shard.Load`).
- The memory guard adds in 64 bits. With keys and values below 2^32 bytes and a ceiling of at most
  2^64 - 2^34, no history of calls ever stores more than the ceiling (`Capacity.CeilingHolds`). An
  entry gets past it if and only if the sum wraps and the total after the update is over, which
  needs a ceiling and a stored total within one entry of 2^64 (`Engine.CeilingPassedIffWraps`,
  `Capacity.FullStoreWraps`).
- A slot fires after the deadline, so that the key is evicted, if and only if the TTL's remainder
  is smaller than the time to the next tick (`Wheel.FireTime`).
- Rotation is documented to abort on any third fingerprint. It does if and only if some envelope
  still carries the old key or none carries the new one (`Rewrap.ThirdKeyRefused`;
  `Rewrap.ThirdKeyPasses` is a directory with a third key that is not refused).
- `SET ... EX` and `PX` give the lifetime asked for if and only if it fits 63 bits of nanoseconds
  (`Resp.SetTtlExactIff`, `Resp.LongTtlWraps`).
- Deleting a user never takes the last ACL rights away; re-assigning a user and deleting a role
  do, unless an exact condition holds (`Policy.SetUserAdminIff`, `Policy.DeleteRoleAdminIff`,
  `Policy.LastAdminLost`).
- ROLE GETUSER round-trips if and only if the role name fits 16 bits, and an accepted payload is
  an encoding if and only if its flag byte is 0 or 1 (`NetCodec.GetUserRoundTripIff`,
  `NetCodec.LongRoleNameRefused`, `NetCodec.GetUserExactIff`).

## Model

| member | source | states |
|---|---|---|
| Aead.Cipher.DecryptEncrypt | internal/crypto/cipher.go:90-160 | A sealed box opens to its plaintext and is exactly nonce, plaintext and tag long |
| Wal.RecordAtEncode | internal/persistence/persistence.go:319-351 | A record's 16-byte header, key and value read back to the record whatever follows |
| Wal.RecordAtTorn | internal/persistence/persistence.go:695-743 | Every proper prefix of an encoded record reads as no record |
| Wal.NextEncode | internal/persistence/persistence.go:195-313 | A whole frame of either format is read back with its counter and its exact length |
| Wal.NextTorn | internal/persistence/persistence.go:748-787 | A frame cut short anywhere stops the scan and does not move the offset |
| Wal.ScanFrames | internal/persistence/persistence.go:695-832 | A log followed by a tail the scan stops at yields exactly its frames, their length and the largest counter |
| Wal.TornTail | internal/persistence/persistence.go:695-832 | Every byte prefix of a log parses to exactly the whole frames in it, with the truncation offset their exact length |
| Wal.SecondReplay | internal/persistence/persistence.go:864-885 | After truncation a second replay of any bytes, corrupt or not, reads the same frames and cuts nothing |
| Replay.LastWriter | internal/persistence/persistence.go:838-861 | The replayed value of a key is that of its last effective record, or the initial one |
| Replay.ReplayIsLive | internal/persistence/persistence.go:838-861 | With no deadline passed, replay rebuilds the live map |
| Replay.RecoveryExact | internal/persistence/persistence.go:838-861 | Recovered and live maps show the same if and only if every key's last write is replayed, or has expired with no older value to return |
| Replay.ExpiredOverwriteResurrects | internal/persistence/persistence.go:848-858 | Two records for which the older value comes back |
| Replay.DeadlineInstantLost | internal/persistence/persistence.go:848-858 | One record, shown at the instant of its deadline, that a restart at that instant loses |
| Replay.OverlapIdempotent | internal/persistence/persistence.go:467-491 | Over a snapshot taken after p records, replay from any q at most p gives the map of the whole log |
| Replay.SnapshotUnderWholeLog | internal/persistence/persistence.go:467-491 | With nothing cut, loading a snapshot first changes nothing, expired deadlines or not |
| Replay.TailCutExact | internal/persistence/persistence.go:948-981 | A cut inside the log preserves the recovered map if and only if every kept key's last kept effect is final |
| Replay.TailCutLosesWrite | internal/persistence/persistence.go:973-981 | Two records and a cut for which an overwritten value returns |
| Snapshot.WriteInProcess | internal/persistence/snapshot.go:149-249 | The loop with its running hash and patched header writes the specified file |
| Snapshot.Serialize | internal/persistence/snapshot.go:474-504 | The pipe carries exactly the body bytes |
| Snapshot.ChildWrite | internal/persistence/snapshot.go:509-601 | The child writes the file of the entries it reads and aborts on a torn pipe |
| Snapshot.PathsAgree | internal/persistence/snapshot.go:474-601 | The pipe-and-child path yields the bytes of the in-process path, for every entry list |
| Snapshot.RoundTrip | internal/persistence/snapshot.go:256-374 | A snapshot reads back entry for entry under its fingerprint and not at all under another |
| Snapshot.Collect | internal/persistence/snapshot.go:296-351 | The read loop collects exactly the entries in the bytes and compares the checksum before anything is applied |
| Snapshot.LoadRestores | internal/persistence/snapshot.go:352-374 | Loading restores exactly the unexpired entries |
| Snapshot.LoadUnderIsLoad | internal/persistence/snapshot.go:352-383 | Where the ceiling admits every entry in turn, loading is loading without a ceiling |
| Snapshot.LoadUnderIff | internal/persistence/snapshot.go:352-383 | A snapshot loads under a ceiling if and only if every unexpired entry finds room beside those before it |
| Snapshot.SnapshotRead | internal/persistence/snapshot.go:256-383 | An engine that changed means the checksum matched; a rejected file leaves the engine as it was; an accepted one loads its entries, or stops exactly when the ceiling refuses one |
| ShardRun.FileStep | internal/persistence/persistence.go:195-313 | Every step of a run, crashes included, keeps the file equal to the committed frames plus a prefix of the one in flight, also between the steps of a start-up |
| ShardSafety.RunInv | internal/persistence/persistence.go:195-313 | The joint invariant of file, counters and snapshot, with every engine item written by a logged record, holds in every reachable state |
| ShardSafety.LoadIsReplay | internal/persistence/persistence.go:467-491 | Loading with whatever snapshot the run left equals replaying the whole history from empty |
| ShardHistory.EngineIsHistory | internal/shard/runner.go:141-177 | In every run that never opened past a logged deadline, the engine shows exactly the map of the applied writes |
| ShardHistory.RunHistory | internal/shard/runner.go:145-177 | In every run the history is what it started from, then every acknowledged record in its place, and at each crash the record in flight there: always if it was synced, perhaps if it was being written |
| ShardHistory.KeptOrigin | internal/shard/runner.go:145-177 | Every record of such a history was there at the start, was acknowledged or was in flight at a crash, and every acknowledged one is in it |
| ShardHistory.LatestWins | internal/shard/runner.go:145-177 | The last acknowledged write of a key decides it in every history the run may leave, whatever crashes and other writes followed |
| ShardHistory.CrashSafety | internal/shard/runner.go:140-176 | After any run with any crashes, a start-up rebuilds the replay of such a history: no acknowledged write is lost, nothing else appears but a write in flight, and none of those stands after a later write |
| ShardHistory.NothingInFlight | internal/shard/runner.go:145-177 | When no crash met a write in flight, the history is exactly the acknowledged writes and the engine shows their map |
| ShardHistory.EachCrash | internal/shard/runner.go:140-176 | At any crash of any run the engine showed the map of the history so far, and the rebuilt map is that one, or that after the one write in flight; a synced write is always in it |
| ShardSafety.AckIsCommitted | internal/shard/runner.go:151-159 | A write is acknowledged only when its frame is the last committed one |
| ShardSafety.AcknowledgedSurvives | internal/persistence/persistence.go:195-240 | No continuation without truncation takes a committed write back |
| ShardSafety.CountersNeverRepeat | internal/persistence/persistence.go:784-832 | Over every run of an encrypted shard counters never repeat, increase in the file, and stay below the live counter |
| ShardSafety.SidecarNeeded | internal/persistence/persistence.go:948-968 | After a cut the reopened counter is above every written one if and only if the sidecar is, the last frame is still there, or the last counter is 0 |
| ShardSafety.PlainOpenRefusedExactly | internal/persistence/persistence.go:387-494 | After any run a plaintext shard fails to start (log or snapshot) if and only if 1 to 3 bytes are left or the first key length reads as the magic |
| ShardSafety.SealedOpenRefusedExactly | internal/persistence/persistence.go:387-494 | After any run an encrypted shard fails to start if and only if 1 to 3 bytes of its magic are left |
| ShardSafety.OnlyTheLogRefuses | internal/persistence/persistence.go:467-494 | A snapshot left by a run is always accepted, so starting fails if and only if the log is refused |
| ShardSafety.TornMagicRefuses | internal/persistence/persistence.go:405-420 | A run of an encrypted shard that leaves 1 to 3 bytes, after which it never starts |
| ShardSafety.TornLengthRefuses | internal/persistence/persistence.go:387-461 | The same for a plaintext shard, torn in its first length field |
| Migration.AttemptKeeps | internal/persistence/persistence.go:497-641 | A start-up stopped at any step leaves a whole plaintext or a whole encrypted log of the same history |
| Migration.MigrationIsAtomic | internal/persistence/persistence.go:497-641 | After any number of start-ups crashed anywhere, each writing what it listed of the disk it found, the log path recovers the same live map; the one exception is a torn magic when nothing was ever logged |
| Migration.MigrationConverges | internal/persistence/persistence.go:497-641 | A start-up that finishes leaves an encrypted log with the persisted counter above every record |
| Migration.SnapshotBlocksMigratedShard | internal/persistence/persistence.go:467-491 | A snapshot loads after the migration if and only if it was written under the new fingerprint; without one the shard always loads |
| MigratedShard.MigrationBegins | internal/persistence/persistence.go:497-641 | What a finished migration leaves, down or still up, is a state a run may start from, and its log stands for the plaintext history |
| MigratedShard.SafeAfterMigration | internal/persistence/persistence.go:497-641 | After a migration, any run and any crashes, a start-up on time rebuilds the map of the plaintext history followed by what the run kept |
| Migration.TornMagicSticks | internal/persistence/persistence.go:405-420 | After a torn magic no start-up changes the disk |
| Ceiling.UnderIsReplay | internal/persistence/persistence.go:733-738 | A replay that gets through under a ceiling is the replay without one |
| Ceiling.UnderIff | internal/persistence/persistence.go:733-738 | A replay gets through if and only if every record it stores finds room beside what the records before it left |
| Ceiling.RefusedForGood | internal/persistence/persistence.go:733-738 | A refused record fails the replay whatever follows it |
| Ceiling.RestartIffNoneRejected | internal/shard/runner.go:145-168 | Over every history of writes and deletions, at any times, the log replays under the same ceiling if and only if none was rejected, and then to the engine map |
| Ceiling.RejectedWriteBlocksRestart | internal/shard/runner.go:156-167 | Two writes and a ceiling for which the restart fails |
| Ceiling.SnapshotOverfills | internal/persistence/persistence.go:467-491 | A shard with nothing rejected that fails to load its own snapshot and log |
| Ceiling.RejectedWrite | internal/shard/runner.go:156-167 | When the log after a rejected write shows the engine map, with and without the tombstone |
| ShardHandle.ApplyRecord | internal/persistence/persistence.go:838-861 | The engine shows the map with one more record replayed |
| ShardHandle.Handle.OpenShard | internal/persistence/persistence.go:387-461 | When opening succeeds, what the file and the format flag become, and when a migration is due |
| ShardHandle.Handle.AppendRecord | internal/persistence/persistence.go:195-240 | Exactly one frame is appended, or nothing while a migration is due |
| ShardHandle.Handle.AppendRecordEncrypted | internal/persistence/persistence.go:248-313 | One sealed frame under the next counter is appended if it fits; the counter is spent either way |
| ShardHandle.Handle.Write | internal/persistence/persistence.go:319-351 | Over-long records change nothing; otherwise the frame is appended exactly when it fits |
| ShardHandle.Handle.Delete | internal/persistence/persistence.go:358-378 | A tombstone frame is appended exactly when it fits |
| ShardHandle.Handle.ReplayPlaintext | internal/persistence/persistence.go:695-743 | The loop succeeds if and only if the ceiling admits every effective SET in turn; it then truncates to the scanned offset and leaves the engine showing the replay, and otherwise leaves the file alone |
| ShardHandle.Handle.ReplayEncrypted | internal/persistence/persistence.go:748-832 | The same for the sealed format, with the counter and sidecar set to the maximum of both |
| ShardHandle.Reseal | internal/persistence/persistence.go:527-577 | The temporary file is the magic and the entries sealed under counters from 0 |
| ShardHandle.Handle.Migrate | internal/persistence/persistence.go:497-641 | On failure the plaintext log stays; on success the file is the encrypted log of the visible items and the counter is their number |
| ShardHandle.Handle.Truncate | internal/persistence/persistence.go:948-968 | Stopped after any number of disk steps: whenever a byte was cut, the counter had reached the sidecar; finished, exactly the prefix is kept |
| ShardHandle.Handle.Snapshot | internal/persistence/persistence.go:913-941 | Stopped after any number of disk steps: the file of every visible item is in place or the old one is, the counter reaches the sidecar after it, and the log is untouched |
| ShardHandle.Storage.CloseShard | internal/persistence/persistence.go:984-1005 | The handle is forgotten exactly when the counter was saved and the file closed, in this order; no other shard is touched |
| Runner.Shard.Get | internal/shard/runner.go:141-144 | The answer of the timed engine, evicting an expired key |
| Runner.Shard.Set | internal/shard/runner.go:145-168 | Logged, then rejected exactly when the guard refuses it beside what the lookup left, else applied; file, counter and engine in each case, with the tombstone exactly when the key was not visible |
| Runner.Shard.Del | internal/shard/runner.go:169-177 | The tombstone is logged first and the reply says whether the key was visible |
| Runner.Shard.Load | internal/persistence/persistence.go:467-494 | Without a migration it succeeds exactly when a present snapshot is accepted and the ceiling admits snapshot and log in turn; the engine shows snapshot then log and the file is truncated to whole records; with a migration the file becomes the encrypted log of what was listed, or stays plaintext |
| ShardLink.SetRuns | internal/shard/runner.go:145-168 | Once logged, SET is rejected exactly when there is no room; otherwise it is the machine run that begins, writes, syncs and acknowledges its record, and the shard stands where the machine does |
| ShardLink.DelRuns | internal/shard/runner.go:169-177 | The same for DEL, answering what the machine showed |
| ShardLink.GetRuns | internal/shard/runner.go:141-144 | GET answers what the machine shows, and at most evicts the expired key |
| ShardLink.SnapshotRuns | internal/persistence/persistence.go:913-941 | Snapshot is the machine run that renames a snapshot of what its map shows, persists the counter and cuts nothing |
| ShardLink.Starts | internal/persistence/persistence.go:387-494 | OpenShard and LoadShard, with snapshots of plain or sealed values, succeed if and only if the machine opens and the ceiling leaves room, and are its start-up steps |
| ShardLink.Migrates | internal/persistence/persistence.go:497-641 | A start-up that migrates is one migration attempt, finished with what was listed of the disk it found, and the shard then stands where a run may start; or it failed with the plaintext log kept |
| CeilingLink.SetServes | internal/shard/runner.go:145-168 | Under any ceiling SET is a step of the served history: rejected exactly when there is no room, with map and log as that step leaves them |
| CeilingLink.DelServes | internal/shard/runner.go:169-177 | The same for DEL |
| CeilingLink.Restarts | internal/persistence/persistence.go:467-494 | A shard that served a history restarts from its log under the same ceiling if and only if no write was rejected, with the map it had |
| Wheel.OnDueOnly | internal/storage/chronometer.go:115-140 | An accepted registration is in the batch of its due advance and in no other |
| Wheel.FiresExactly | internal/storage/chronometer.go:115-209 | A key filed s steps ahead is handed to deletion on exactly the (s+1)-th advance in every continuation |
| Wheel.Conservation | internal/storage/chronometer.go:115-209 | Registrations equal fired plus pending plus overflowed in every run |
| Wheel.FireTime | internal/storage/chronometer.go:178-209 | At most one interval late, and strictly after the deadline if and only if the remainder is below the time to the next tick |
| Wheel.Chronometer.Register | internal/storage/chronometer.go:178-209 | The slot arrays and sizes after a registration |
| Wheel.Chronometer.Advance | internal/storage/chronometer.go:115-140 | The fired batch is the slot the wheel stands at, which is emptied before it turns |
| TimedStore.HashKey | internal/router/router.go:31-38 | The loop computes 32-bit FNV-1a |
| TimedStore.TickRefines | internal/storage/engine.go:312-323 | A tick of any shard with any slot contents drops only expired items |
| TimedStore.DelRefines | internal/command/handlers.go:62-74 | DEL leaves the map without the named keys and counts each distinct visible key once |
| TimedStore.ExecRefines | internal/router/router.go:40-43 | Every command on the shards answers as on the one map and keeps the relation |
| TimedStore.ShardsRefineOneTimedMap | internal/router/router.go:31-43 | Every history of GET, SET, DEL and ticks on N shards answers as one timed map does |
| TimedStore.RefreshedKeyStays | internal/storage/engine.go:312-323 | A refreshed key survives the tick that fires its stale entry |
| Engine.ReleaseTracks | internal/storage/engine.go:327-332 | Adding the complement subtracts the true size modulo 2^64 |
| Engine.UpdateTracks | internal/storage/engine.go:159-170 | The two-branch wrapping update tracks the true total |
| Engine.CeilingPassedIffWraps | internal/storage/engine.go:114-170 | For new and updated keys, the total passes the ceiling if and only if the sum wraps and the total after the update is over; for a new key, if it wraps |
| Capacity.Perform | internal/storage/engine.go:106-332 | Each call on the engine leaves the state the call has on values |
| Capacity.CeilingHolds | internal/storage/engine.go:106-332 | Over every history of sets, gets, deletes and ticks with keys and values below 2^32 bytes and a ceiling of at most 2^64 - 2^34, the bytes stored never pass the ceiling |
| Capacity.FullStoreWraps | internal/storage/engine.go:114-126 | A store at a ceiling of 2^64 - 2^32, with entries of such sizes, that admits one more and holds 2^64 bytes |
| Engine.Engine.Set | internal/storage/engine.go:106-184 | The new state below the ceiling, the unchanged one above it, with exact accounting |
| Engine.Engine.SetFromBuffer | internal/storage/engine.go:191-234 | The same for a key and value in one buffer |
| Engine.Engine.SetRaw | internal/storage/engine.go:241-284 | The same for a value already sealed |
| Engine.Engine.Delete | internal/storage/engine.go:289-310 | The key is gone, the result says whether it was visible, and the counters shrink by its true size |
| Engine.Engine.DeleteIfExpired | internal/storage/engine.go:312-323 | Only an expired key is dropped |
| Engine.Engine.Get | internal/storage/engine.go:334-371 | The unsealed value if visible; an expired key is evicted |
| Engine.Engine.Tick | internal/storage/chronometer.go:115-140 | One wheel advance deletes the expired keys of its batch |
| Engine.Engine.ForEach | internal/storage/engine.go:438-460 | Every visible entry exactly once, nothing else |
| Rewrap.Crypto.LoadEnvelope | internal/crypto/envelope.go:150-250 | A stored envelope loads to its data key under its own key |
| Rewrap.SideFilesAreNoEnvelopes | internal/crypto/rewrap.go:29-42 | Neither a temporary file nor a backup is ever taken for an envelope |
| Rewrap.Directory.AtomicWrite | internal/crypto/rewrap.go:196-245 | Cut anywhere, the path holds the old bytes; otherwise the new ones, and nothing else changed but the temporary file |
| Rewrap.Directory.CopyFile | internal/crypto/rewrap.go:249-255 | Only the backup is touched, and unless cut short it holds the original bytes |
| Rewrap.Directory.Classify | internal/crypto/rewrap.go:100-127 | The counters are the numbers of envelopes under each key, refused exactly when a layout is foreign |
| Rewrap.Directory.Prepare | internal/crypto/rewrap.go:142-174 | Every envelope of the old key is re-wrapped around its data key, in memory; refused exactly when one does not open |
| Rewrap.Directory.Replace | internal/crypto/rewrap.go:176-188 | Cut anywhere, each envelope is untouched or re-wrapped; finished, all are |
| Rewrap.Directory.RewrapEnvelopes | internal/crypto/rewrap.go:74-191 | Exactly when it is refused, and then no file changed; what every crash point leaves; the counts of a finished run; and, if asked to, a backup of every replaced envelope |
| Rewrap.BetweenTrans | internal/crypto/rewrap.go:74-191 | Interrupted runs compose |
| Rewrap.EveryCrashPointUnwraps | internal/crypto/rewrap.go:74-191 | Over any chain of interrupted runs each envelope unwraps to its original data key under exactly one key |
| Rewrap.HealthyIsAccepted | internal/crypto/rewrap.go:128-136 | A healthy directory is never refused, however often it was interrupted |
| Rewrap.ThirdKeyRefused | internal/crypto/rewrap.go:128-136 | A third fingerprint aborts if and only if the old key is present or the new one is absent |
| Rewrap.ThirdKeyPasses | internal/crypto/rewrap.go:128-136 | A directory with an envelope under a third key that is not refused |
| Rewrap.Rotate | internal/crypto/rewrap.go:74-191 | Any interrupted attempts and one undisturbed run leave every envelope under the new key with its data key |
| TlsRecord.XorBack | internal/tls/cipher_suites.go:155-177 | Exclusive or with the same byte twice is the identity |
| TlsRecord.NonceInjective | internal/tls/cipher_suites.go:155-165 | Different sequence numbers under one mask give different nonces |
| TlsRecord.OpenPadded | internal/tls/conn.go:340-462 | A record opens to its content and type whatever its zero padding |
| TlsRecord.OpenSeal | internal/tls/conn.go:480-563 | A sealed record opens to the data and content type sealed |
| TlsRecord.TakeSealed | internal/tls/conn.go:626-691 | A record is cut off the stream exactly, and each proper prefix asks for more bytes |
| TlsRecord.ReadKeyUpdateIff | internal/tls/handshake_messages.go:1000-1044 | Exactly the two marshalled messages read as key updates, each with its own flag |
| TlsConn.XorNonceAead.Seal | internal/tls/cipher_suites.go:155-165 | Sealed under the masked nonce, with the mask restored |
| TlsConn.XorNonceAead.Open | internal/tls/cipher_suites.go:167-177 | Opened under the masked nonce, with the mask restored |
| TlsConn.HalfConn.SetTrafficSecret | internal/tls/conn.go:230-237 | New secret, new mask, count zero |
| TlsConn.HalfConn.IncSeq | internal/tls/conn.go:240-252 | The carry loop adds one, and stops exactly at 2^64 - 1 |
| TlsConn.HalfConn.Encrypt | internal/tls/conn.go:480-563 | The record sealed at the current state, which moves on by one |
| TlsConn.HalfConn.FindType | internal/tls/conn.go:416-426 | The scan from the end finds the last non-zero byte |
| TlsConn.HalfConn.Decrypt | internal/tls/conn.go:340-462 | The result for every record, and that the count moves on only for one that opened |
| TlsConn.Conn.MaxPayload | internal/tls/conn.go:877-922 | Between 1 and 2^14: whole-packet multiples for the first 13 records, full records after them or after 128 KiB |
| TlsConn.Conn.WriteRecord | internal/tls/conn.go:956-1006 | The bytes sent are records sealed in order whose fragments concatenate to the data, each at most 2^14 |
| TlsConn.Conn.HandleKeyUpdate | internal/tls/conn.go:1207-1237 | The reading half moves on; if asked, the update is announced under the old secret before the writing half moves |
| TlsConn.Conn.SendKeyUpdate | internal/tls/conn.go:1219-1236 | One record under the old secret, and the writing half moves to the next |
| TlsConn.Conn.SendAlert | internal/tls/conn.go:822-845 | One alert record under the writing state, which moves on by one |
| TlsConn.Conn.ReadRecord | internal/tls/conn.go:610-766 | The record cut off the input is opened at the reading state, which moves by the reader rule, and judged: data, handshake, nothing, the end the peer announced, or an error answered by its alert; nothing is read after an end or an error, and a requested update is answered under the old writing secret |
| TlsRun.EndsAgree | internal/tls/conn.go:1207-1237 | The reader rule and the writer rule reach the same state on every message an endpoint sends |
| TlsRun.NoncesDistinct | internal/tls/conn.go:230-252 | No two records of a direction share traffic secret and nonce, as long as successive secrets differ |
| TlsRun.DrainedIff | internal/tls/conn.go:610-755 | The wire is empty if and only if everything sent was received, and then both halves agree |
| TlsRun.LockStep | internal/tls/conn.go:1207-1237 | In every run of writes, key updates and deliveries, each end moving by its own rule, each record is opened at the state it was sealed at, with content type and data intact and in order |
| TlsRun.ServerWrites | internal/tls/conn.go:956-1006 | A connection write is the run event with the same bytes on the wire and the same state after |
| TlsRun.ServerReads | internal/tls/conn.go:610-755 | Reading a record is the delivery event, the answer to a key update included |
| Resp.AtoiItoa | internal/resp/protocol.go:122-147 | Decimal lengths read back |
| Resp.ParseLineLoop | internal/resp/protocol.go:89-105 | The scan loop computes the line result |
| Resp.ParseLoop | internal/resp/protocol.go:45-85 | The argument loop computes the parse result |
| Resp.ParseStable | internal/resp/protocol.go:45-105 | A command or protocol error found in a prefix is found in every extension |
| Resp.ParseEncode | internal/resp/protocol.go:122-147 | Encoding then parsing returns the arguments with exact consumption whatever follows |
| Resp.PrefixIncomplete | internal/resp/protocol.go:45-105 | Every proper prefix of an encoded command is incomplete |
| Resp.ChunkingInvariant | internal/resp/server.go:370-408 | However a stream is cut into reads, the commands and the first error are the same |
| Resp.SetTtlExactIff | internal/command/handlers.go:79-95 | The lifetime is the one asked for if and only if it fits 63 bits |
| Resp.LongTtlWraps | internal/command/handlers.go:79-95 | A lifetime that wraps to a negative one |
| RespSafety.DispatchAnswered | internal/resp/server.go:567-666 | Every dispatched command is answered once, or is an AUTH in flight, and keeps the invariant |
| RespSafety.ExecuteAnswered | internal/command/command.go:89-128 | A data handler runs only for the pinned session and only when every key is allowed |
| RespSafety.ResolveInv | internal/resp/server.go:917-989 | A verdict answers its AUTH and pins what was resolved when it was dispatched |
| RespSafety.ConnectionSafe | internal/resp/server.go:370-408 | In every run: each event was permitted by the trace before it (commands, handlers, AUTH, pins, rejections and replies each with their reason), at most three rejections and then closed, the replies written are those given, in command order, and the commands are a prefix of the stream's |
| RespSafety.DataRunsAllowed | internal/command/command.go:89-128 | Whenever a data handler ran, no verdict was awaited, a session was pinned, and with a policy its role allowed the command on every key |
| RespSafety.VerdictHonoured | internal/resp/server.go:917-989 | In every run a good verdict pins the token session or the one from the policy in force at the AUTH and keeps the connection open; a bad one keeps the session, counts once, and closes exactly at the third |
| RespSafety.NothingHeldBack | internal/resp/server.go:469-522 | In every run an open connection that awaits no verdict and no wake has dispatched every complete command received |
| RespSafety.WakeDispatches | internal/resp/server.go:917-989 | Whatever came before, the wake after a verdict leaves no complete command undispatched |
| RespServer.ConnState.constructor | internal/resp/server.go:217-226 | The starting authentication state |
| RespServer.ConnState.DenyKey | internal/command/command.go:118-128 | Denied exactly when some key is out of the session's reach |
| RespServer.ConnState.ExecuteData | internal/command/command.go:89-113 | Arity, gate and handler as one step of the run |
| RespServer.ConnState.AuthFailed | internal/resp/server.go:874-895 | Counted, and the third closes |
| RespServer.ConnState.AuthRbac | internal/resp/server.go:797-837 | Unknown users fail, nopass users are pinned, others wait for a verdict |
| RespServer.ConnState.Auth | internal/resp/server.go:756-790 | Which form of AUTH does what |
| RespServer.ConnState.DispatchOne | internal/resp/server.go:567-666 | The dispatch switch as one step of the run |
| RespServer.ConnState.ProcessBuffer | internal/resp/server.go:370-408 | The parse loop over the buffer as the recursive processing function |
| RespServer.ConnState.OnTraffic | internal/resp/server.go:469-522 | The object stays in the state its events lead to |
| RespServer.ConnState.OnVerdict | internal/resp/server.go:917-989 | The same for a worker's verdict |
| Codec.WholeIff | internal/network/role.go:53-73 | For a lawful codec, a payload is accepted with a value if and only if it is that value's encoding |
| Codec.TokenLawful | internal/network/role.go:141-151 | Length-prefixed tokens invert and are exact |
| Codec.ListLawful | internal/network/role.go:123-194 | Counted lists of a lawful codec are lawful |
| NetCodec.RoleArgsBijection | internal/network/role.go:28-73 | ROLE arguments are a bijection with their accepted payloads |
| NetCodec.RoleListBijection | internal/network/role.go:202-249 | The same for ROLE LIST |
| NetCodec.AclLogBijection | internal/network/acl.go:118-163 | The same for ACL LOG |
| NetCodec.EncodeList | internal/network/role.go:123-136 | The loop appends the encoding, or refuses what does not fit 16 bits |
| NetCodec.EncodeRoleArgs | internal/network/role.go:28-49 | The sized and filled buffer is the encoding |
| NetCodec.EncodeRoleList | internal/network/role.go:202-223 | The loop writes the encoding, or refuses |
| NetCodec.EncodeAclLog | internal/network/acl.go:118-134 | The nested loops write the encoding, or refuse |
| NetCodec.DecodeToken | internal/network/role.go:141-151 | The token at a position and the position after it |
| NetCodec.DecodeList | internal/network/role.go:155-194 | The loop reads a counted list at a position |
| NetCodec.DecodeRoleArgs | internal/network/role.go:53-73 | Accepted exactly when the payload is the encoding of the result |
| NetCodec.DecodeRoleList | internal/network/role.go:227-249 | Accepted exactly when the payload is the encoding of the result |
| NetCodec.DecodeAclLog | internal/network/acl.go:138-163 | Accepted exactly when the payload is the encoding of the result |
| NetCodec.GetUserRoundTripIff | internal/network/role.go:91-119 | Round trip if and only if the role name fits 16 bits |
| NetCodec.LongRoleNameRefused | internal/network/role.go:91-119 | A role name of 65536 bytes whose reply is refused |
| NetCodec.GetUserExactIff | internal/network/role.go:104-119 | An accepted payload is an encoding if and only if its flag is 0 or 1 |
| Bitset.Bits.Set | internal/rbac/rbac.go:22-28 | Exactly one id is added, growing as needed |
| Bitset.Bits.Clear | internal/rbac/rbac.go:44-51 | Exactly one id is removed, and the slice keeps its length |
| Bitset.OnTurnOn | internal/rbac/rbac.go:22-28 | Setting a bit changes that bit only |
| Bitset.OnTurnOff | internal/rbac/rbac.go:44-51 | Clearing a bit changes that bit only |
| Rbac.ParseRole | internal/rbac/parser.go:29-87 | Accepted exactly for well-formed rules; a command is held if and only if some rule grants it and none denies it |
| Rbac.ApplyRule | internal/rbac/parser.go:36-80 | What one rule adds to the grants, the denials and the whitelist |
| Rbac.WhitelistMeaning | internal/rbac/role.go:36-43 | A key passes if and only if there is no prefix rule or one of them is a prefix of it |
| Policy.Policy.HasOtherAdmin | internal/rbac/manager.go:112-122 | The search finds an administrator other than the user if and only if there is one |
| Policy.Store.CreateRole | internal/rbac/manager.go:25-47 | Refused for bad rules or a taken name; otherwise the parsed role is added |
| Policy.Store.SetUser | internal/rbac/manager.go:52-76 | Refused for an unknown role; otherwise the user is assigned |
| Policy.Store.DelUser | internal/rbac/manager.go:85-108 | Refused exactly for the last administrator |
| Policy.Store.DeleteRole | internal/rbac/manager.go:127-150 | The role is gone, and the fallback with it if it was the same role |
| Policy.PolicyRun | internal/rbac/manager.go:25-150 | Over every run of mutations and reloads the fallback is none or a current role, and no user deletion removes the last administrator |
| Policy.DelUserKeepsAdmin | internal/rbac/manager.go:85-108 | A policy with an administrator still has one after a user deletion |
| Policy.SetUserAdminIff | internal/rbac/manager.go:52-76 | After a re-assignment there is an administrator if and only if the new role or another user has the rights |
| Policy.DeleteRoleAdminIff | internal/rbac/manager.go:127-150 | After a role deletion there is one if and only if some user reaches the rights without it |
| Policy.LastAdminLost | internal/rbac/manager.go:52-150 | A policy whose last administrator is lost by a re-assignment, and by a role deletion |
| AclLog.Push | internal/rbac/log.go:41-50 | Writing at the head appends to the window and drops the oldest |
| AclLog.Ring.Append | internal/rbac/log.go:41-50 | The contents become the last 100 of the old contents and the entry |
| AclLog.Ring.Seed | internal/rbac/log.go:95-104 | The contents become the last 100 of the old contents and the seed |
| AclLog.Ring.AuthLog | internal/rbac/log.go:110-125 | The copy is the contents, oldest first |
| AclLog.Collect | internal/audit/replay.go:111-119 | One file more, newest first, cut at the limit |
| AclLog.Reverse | internal/audit/replay.go:121-124 | The in-place swap loop reverses |
| AclLog.ReplayAuthLog | internal/audit/replay.go:89-126 | The backwards early-stopping walk returns the last N entries of all files in order |
| AclLog.AcrossRestart | internal/rbac/log.go:95-125 | Seeding with the last 100 and then adding events loses nothing against the whole history |
| AclLog.Restart | internal/rbac/log.go:95-125 | After a restart and any events the ring returns the last 100 of files then events |
| AclLog.DecodeEncrypted | internal/audit/replay.go:266-303 | The framing loop computes the decoded entries |
| AclLog.TornAuditFile | internal/audit/replay.go:266-303 | A sealed file cut inside a last record decodes to exactly what its whole records contribute |

## Left out

- ShardHistory.CrashSafety: items in the crash machine are plaintext values; sealing at rest is added by ShardHandle and Runner and tied back by ShardLink. Calls on a shard are sequential, since Execute takes no lock across the log and engine writes. A log cut by TruncateWALTo is excluded; Replay.TailCutExact says what a cut costs.
- ShardHistory.EngineIsHistory: for runs that never start up past a logged deadline; Replay.RecoveryExact says what a start-up shows otherwise.
- ShardSafety.CountersNeverRepeat: speaks of records whole in the file; the counter of a record torn mid-write, or in a discarded migration temporary file, may be used again, and counters stop short of 2^64.
- ShardLink.SetRuns: follows a rejected write no further, since the machine applies what it logs; CeilingLink.SetServes does.
- ShardLink.Migrates: for a shard without a snapshot, and without the crash points inside Migrate, which are the other attempts of Migration. With a plaintext snapshot the source first stores its values as if sealed, and the replay overwrites each of them.
- Ceiling.RestartIffNoneRejected: for a log without a snapshot under it and while no logged deadline has passed; Ceiling.UnderIff is the condition in general.
- ShardHandle.Handle.Migrate: requires stored values that unseal to encodable records, which replay always produces.
- TlsRun.NoncesDistinct: assumes that successive traffic secrets differ, which rests on HKDF.
- TlsRun.LockStep: stops short of a sequence number wrapping, where the source panics; a wrapped run has no next record.
- ShardHandle.Handle.Snapshot: for stored items whose lengths fit 32 bits; the source truncates longer ones.
- TlsConn.Conn.ReadRecord: a handshake message is one record; a split one, and what the connection does with one that is no key update, are not modelled.
- TlsConn.Conn.WriteRecord: models a connection that has TLS 1.3 keys; records before the handshake ends are not modelled.
- RespSafety.ConnectionSafe: STARTTLS, TLS transport and write errors are not modelled; a data command's effect on the store is TimedStore and Runner.
- Rewrap.Directory.RewrapEnvelopes: models crashes, not failed writes; it assumes the two keys have different fingerprints when they differ.
- Policy.PolicyRun: a reload is any policy whose fallback is one of its roles; reading the policy file is not modelled.
- TLS handshake, certificates, session tickets, CBC and stream ciphers: they rest on libraries outside the repository.
- ChaCha20-Poly1305, HKDF, SHA-256, xxhash, bcrypt, JWT: uninterpreted functions with the inverse law only; no collision freedom is claimed.
- Directory fsync, fork and exec, sockets, goroutine scheduling: replaced by atomic file-system and event-loop steps; rename is atomic and truncation durable.
- Deadlines past the year 2262, where the nanosecond clock overflows 63 bits.
- Metrics, hit and miss counters, logging, tracing, configuration, COMMAND tables, audit JSON and the SQL scanner: plumbing or easy members.
- OAuth claim rules and token verification: a token's session is a parameter of its verdict.
- GetInto, the binary protocol's request frames, ACL LIST and the remaining ROLE replies: easy members beside the ones modelled.
