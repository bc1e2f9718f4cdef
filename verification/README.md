# The Erebrus node's stateful core, in Dafny

The project models the parts of an Erebrus VPN node that allocate, meter, hand off, bound and rotate:
the peers table and its IP allocator, the WireGuard device kept in step with it, usage metering, the
Kubo identity hand-off between two processes, bounded streaming and Drop admission, carrier secrets
and their ledger, and two text transformations. Everything outside the node (SQLite, the WireGuard
device, Kubo, sing-box, hashes, key derivation, random values, the clock) is a small abstract state, a
parameter or an arbitrary function.

Objects the source updates in place are classes whose methods are proved against a function on values;
protocols are state machines `Next`/`Run` over events, and their theorems hold for every sequence of
events, so for every interleaving, failure and crash point.

| file | what it models |
|---|---|
| `Ipv4.dfy`, `Allocator.dfy` | the byte loops of the allocator, and the integers they compute with |
| `PeerStore.dfy`, `PeerRuns.dfy`, `Transactions.dfy` | the peers table: one call, runs of calls, interleaved callers |
| `Provisioning.dfy` | the table, the interface file and the live WireGuard device together |
| `Usage.dfy` | deltas from resettable counters, over whole runs |
| `IdentityHandoff.dfy` | node and sidecar sharing one repository directory |
| `Streaming.dfy`, `DropService.dfy` | byte limits against any read schedule; which requests reach Kubo |
| `CarrierSecrets.dfy`, `RotationLedger.dfy` | persisted, in-memory and served secrets; the credential ledger |
| `SentinelPolicy.dfy`, `ByteSize.dfy` | rules to Unbound fragments and back; byte sizes and decimals |
| `Text.dfy`, `Arith.dfy` | helpers: Go string functions, powers of two and remainders |

## What does not hold as one might expect

Each of these is a theorem with a concrete run or input, and beside it the exact condition.

- With two different mnemonics the installed Kubo identity can mix the peer id of one with the key of
  the other (`IdentityHandoff.MixIsReachable`). It never does if and only if all mnemonics used derive
  one identity (`IdentityHandoff.NeverMixedIff`).
- `docs/DROP.md:110-112` says an identity conflict is resolved by restoring the mnemonic of the existing
  volume. One node run and one sidecar run with another mnemonic lead to a repository in which no
  mnemonic helps any more (`IdentityHandoff.ConflictArises`, `IdentityHandoff.ConflictIsPermanent`). On an
  idle repository restoring helps if and only if no marker is set, or the peer id file already names the
  repository's identity and the sidecar may start (`IdentityHandoff.RestoringHelpsIff`). A marker written
  while a run with the restored mnemonic is past its check is such an exception
  (`IdentityHandoff.MarkerCanComeTooLate`).
- A node restarted during the hand-off can report a conflict although there is none
  (`IdentityHandoff.ConflictCanBeSpurious`). A node run on an unmarked repository reports one if and only if
  a different non-empty peer id is configured (`IdentityHandoff.NodeEnds`); from an empty volume with one
  mnemonic that is while the derived identity is not installed yet (`IdentityHandoff.SpuriousIff`).
- The UNIQUE constraint compares key texts, the device compares keys: of two enabled rows with texts of
  one key, at least one has its address allowed for nobody (`Provisioning.SharedKeyLosesPeer`). After a successful apply the device mirrors the table if
  and only if no two enabled rows have texts that denote one key (`Provisioning.AppliedMirrorsIff`).
- A key handed to another peer without restarting its counter charges the new peer for the old one's
  bytes (`Usage.InheritedCounterIsCharged`). A report lists the rows before it reads the counters; a key that
  changes hands in between charges its former owner for bytes of the new one
  (`Usage.StaleListingIsCharged`). A report keeps the bound, whatever traffic comes before the counters are
  read, if and only if no key it listed for the peer has changed hands (`Usage.ReadKeepsBoundIff`). Where
  that holds at every read, a peer is charged at most the bytes it moved plus the counter values found on
  its keys (`Usage.NeverOverReported`, `Usage.FreshKeysNeverOverReport`).
- A row that holds another text of its key than the device prints is never metered
  (`Usage.OtherTextNeverMetered`).
- What was reported for a peer is its last sampled counter if and only if no sample fell below the one
  before (`Usage.ReportsTelescope`), in particular when nothing was reset (`Usage.ReportedIsLastSample`).
- A key pair torn between its two writes is never repaired (`CarrierSecrets.TornKeysStay`), so a completed
  load yields both halves if and only if the stored pair is not torn (`CarrierSecrets.KeysCompleteIff`). A
  torn certificate is always repaired (`CarrierSecrets.TornCertificateRepaired`).
- A successful short-id rotation can leave memory behind the stored settings with nothing torn: the
  rotation command runs in a process of its own, and the node keeps the replaced VLESS id and Hysteria2
  password (`CarrierSecrets.RealityRotationCanDisagree`). It does so if and only if a full rotation, here or
  in another process, stored a secret that the node has not loaded since
  (`CarrierSecrets.RealityRotationAgreesIffCurrent`, `CarrierSecrets.DisagreesIffBehind`).
- A replaced carrier secret keeps the active row it was introduced with, for ever
  (`RotationLedger.IntroducedStaysActive`). When all rotations succeed and clean up, at non-decreasing times,
  a row is active if and only if it never expires or expires after the last one
  (`RotationLedger.ActivityIsExact`). A short id rotated on its own is in no row: the current one has an
  active row without expiry if and only if none was stored since the last full rotation
  (`RotationLedger.ShortIDRecordedIff`).
- With prefix length 0 the scan of a full block goes round the address space for ever
  (`Allocator.EndlessScan`). Such a block can be filled and scanned (`PeerRuns.BlockCanBeFilled`,
  `Transactions.HangReached`); the caller keeps the only connection until it is cancelled
  (`Transactions.HangingHoldsAll`), and never returns (`Transactions.CancelledScanNeverReturns`). The loop ends if and
  only if the block is not the whole address space or holds a free address (`Allocator.ScanEndsIff`,
  `PeerRuns.ScanTerminatesIff`).
- An upload can reach Kubo while Drop is not active (`DropService.UploadMayOutliveActive`): if and only if the
  last thing since its writable check to replace the snapshot had no statistics, and the upload fits an
  empty repository (`DropService.OutlivesActiveIff`).
- A negative repository size can refuse an upload that fits (`DropService.NegativeSizeCanRefuse`). Admission
  is exact for every upload if and only if the free space is representable in 64 bits
  (`DropService.AdmissionExactIff`).

## Model

| member | source | states |
|---|---|---|
| Ipv4.IncIP | internal/store/ipalloc.go:66-73 | the in-place carry loop adds one to the big-endian value, modulo 256^n, for any address length |
| Ipv4.IncrementAddsOne | internal/store/ipalloc.go:66-73 | increment with carry on byte sequences is integer +1 modulo 256^n |
| Ipv4.BroadcastAddr | internal/store/ipalloc.go:75-86 | the filled buffer's value is network + 2^(8n-p) - 1 |
| Ipv4.BroadcastValue | internal/store/ipalloc.go:75-86 | or-ing the inverted mask into each byte yields the last address of the block |
| Ipv4.MaskedValue | internal/store/ipalloc.go:50 | masking rounds the value down to a multiple of the block size |
| Ipv4.ContainsIsInterval | internal/store/ipalloc.go:50 | an address agrees with the network under the mask iff its value lies in the block's interval |
| Ipv4.DottedRoundTrip | internal/store/ipalloc.go:51 | dotted decimal reads back to the same four bytes |
| Ipv4.DottedInjective | internal/store/ipalloc.go:26-30 | the text used as key of the reserved set determines the address |
| Ipv4.HostCidrRoundTrip | internal/store/ipalloc.go:42-55 | the stored text with its /32 suffix parses back to the allocated address |
| Ipv4.CidrRoundTrip | internal/store/ipalloc.go:21 | an address, a slash and any prefix length from 0 to 32 are read as that address and that prefix length |
| Ipv4.ParsedIsDotted | internal/store/ipalloc.go:42 | only canonical dotted decimal is read as an address |
| Ipv4.ParsedIsCidr | internal/store/ipalloc.go:21 | only an address, a slash and a number up to 32 in digits are read as a subnet, with exactly that address and number |
| Allocator.ReservedTexts | internal/store/ipalloc.go:26-45 | the reserved map holds exactly the texts of network, broadcast, server and every stored address that parses |
| Allocator.TextLookup | internal/store/ipalloc.go:51-53 | a text is in the reserved map iff its address is reserved |
| Allocator.InNetwork | internal/store/ipalloc.go:50 | the byte loop of the containment test decides membership of the interval |
| Allocator.Scan | internal/store/ipalloc.go:50-57 | watched for any number of iterations, the scan is still going on iff no address so far was outside the block or unreserved; when it stops, it found the numerically lowest unreserved address, or there is none |
| Allocator.AllocateIP | internal/store/ipalloc.go:20-58 | the answer is the lowest free address of the block with its suffix, exhausted iff all are reserved, or an invalid-subnet error; no answer exactly while the scan is still going on |
| Allocator.ScanEndsIff | internal/store/ipalloc.go:50-57 | the loop ends iff the block is not the whole address space or holds a free address, and then within size + 1 addresses |
| Allocator.EndlessScan | internal/store/ipalloc.go:50-57 | with prefix length 0 and every usable address taken no address visited makes the loop stop |
| Allocator.FirstStop | internal/store/ipalloc.go:50-57 | the address at which the walk first stops is the lowest free one, or lies outside a block that has none |
| Allocator.BlockBounds | internal/store/ipalloc.go:20-30 | the server lies in its block, the block in the address space, and for p >= 1 the block is not all of it |
| Allocator.FreeIffRoom | internal/store/ipalloc.go:50-57 | an address is free iff fewer than size - card{network, broadcast, server} are taken |
| Allocator.ReleasedIsNext | internal/store/ipalloc.go:50-57 | a released address is the next one handed out, unless a lower one was free anyway |
| PeerStore.Store.UpsertPeer | internal/store/store.go:162-241 | the transaction yields the table and answer of the specification on the committed table (pinned by KnownIdUpdates, KnownKeyUpdates, TakenKeyRefused and CreateInNumbers), and keeps the UNIQUE columns distinct; no answer exactly while a create is still scanning |
| PeerStore.Store.Save | internal/store/store.go:197-208 | a row is written unless another id's row collides in a UNIQUE column; then nothing changes |
| PeerStore.Store.AllowedIPs | internal/store/ipalloc.go:32-48 | the selected texts reserve exactly the addresses stored in the table |
| PeerStore.Store.DeletePeer | internal/store/store.go:151-154 | exactly the row of this id is gone; absent ids are accepted |
| PeerStore.Store.ListPeers | internal/store/store.go:133-148 | every row exactly once, oldest first |
| PeerRuns.TakenIsStored | internal/store/ipalloc.go:32-48 | the addresses the allocator sees as taken are exactly the stored ones |
| PeerRuns.TakenSize | internal/store/ipalloc.go:32-48 | in a consistent table of placed addresses as many addresses are taken as there are rows |
| PeerRuns.CreateClashes | internal/store/store.go:210-237 | an insert never collides in the address; in the key iff an empty key is stored already; in the proxy id iff it is not fresh |
| PeerRuns.UpsertConsistent | internal/store/migrations/0001_init.sql:2-15 | every upsert keeps ids, keys, addresses and proxy ids pairwise distinct |
| PeerRuns.UpsertPlaced | internal/store/store.go:210-237 | every upsert keeps all addresses in the block, off network, broadcast and server |
| PeerRuns.UpsertCanonical | internal/store/store.go:210-237 | whatever the subnet, stored addresses stay single IPv4 host addresses |
| PeerRuns.UpsertKeepsIdentity | internal/store/store.go:188-208 | no upsert removes a row or changes its id, address, proxy credentials or creation time |
| PeerRuns.StoredIsRead | internal/store/store.go:187-240 | the answered row is in the table and carries every requested field, no other row changed, and a new id gets the given credentials and the lowest usable address that no row held |
| PeerRuns.KnownIdUpdates | internal/store/store.go:188-208 | a known id with a key no other peer holds updates exactly its own row: it succeeds, every requested field is taken over, and address, proxy credentials and creation time stay |
| PeerRuns.KnownKeyUpdates | internal/store/store.go:173-208 | an unknown id with a known key updates every requested field of the peer holding the key, keeps its identity, creates nothing and changes no other row |
| PeerRuns.TakenKeyRefused | internal/store/store.go:188-204 | taking another peer's key fails with a key violation and changes nothing |
| PeerRuns.FailureChangesNothing | internal/store/store.go:162-241 | an upsert that fails or never answers leaves the table as it was |
| PeerRuns.RefusalExplained | internal/store/store.go:173-240 | a UNIQUE refusal is never about the address, and about a non-empty key only when a known id is addressed |
| PeerRuns.BlockInNumbers | internal/store/ipalloc.go:21-30 | the usable addresses of a.b.c.d/p are those strictly between the first and last address of the 2^(32-p) around it, without a.b.c.d itself |
| PeerRuns.AllocateInNumbers | internal/store/ipalloc.go:20-58 | on the text a.b.c.d/p the allocator answers the lowest of those addresses that is not taken; without one, exhausted for p >= 1 and no answer for p = 0 |
| PeerRuns.DefaultSubnetStarts | internal/config/config.go:145 | on the default subnet 10.0.0.1/16 the first peer gets 10.0.0.2/32 |
| PeerRuns.CreateSucceedsIffRoom | internal/store/store.go:210-240 | a create succeeds iff fewer than 2^(32-p) - card{network, broadcast, server} peers exist; without room it is refused as exhausted for p >= 1 and never answered for p = 0 |
| PeerRuns.CreateInNumbers | internal/store/store.go:210-240 | on the text a.b.c.d/p a create succeeds iff the rows and the network, broadcast and server addresses are together fewer than 2^(32-p), and else is refused as exhausted or, for p = 0, never answered |
| PeerRuns.ScanTerminatesIff | internal/store/ipalloc.go:50-57 | some address visited by the loop is outside the block or unreserved, for every prefix of at least 1 and for prefix 0 iff there is room |
| PeerRuns.DeletedAddressIsReused | internal/store/store.go:151-154 | after any delete the next create succeeds, at the deleted address unless a lower one was free anyway |
| PeerRuns.RunKeepsTable | internal/store/store.go:151-241 | after every run of upserts and deletes the table is consistent and all addresses are placed |
| PeerRuns.RunKeepsIdentity | internal/store/store.go:188-208 | from creation to deletion a peer's id, address, proxy credentials and creation time are constant, in every run |
| PeerRuns.BlockCanBeFilled | internal/store/store.go:210-240 | for every k up to the capacity of the block some run of creates from the empty table ends with k rows |
| Transactions.InterleavingsAreSerial | internal/store/store.go:56 | for any number of callers interleaved statement by statement, with cancellations, the table and every reply are those of a serial run of the finished calls |
| Transactions.CallerFinishes | internal/store/store.go:162-241 | after any schedule, a caller that holds the connection or finds it free finishes within six statements of its own with exactly the serial reply and table, and disturbs no other caller, unless its scan does not end |
| Transactions.InterleavingsKeepTable | internal/store/store.go:162-241 | under every interleaving all UNIQUE columns stay distinct and all addresses placed |
| Transactions.RefusalsAreExplained | internal/store/store.go:162-241 | under every interleaving no upsert is refused for its address, nor for a non-empty key unless it addressed an existing id |
| Transactions.HangingHoldsAll | internal/store/store.go:56 | under every schedule a caller whose scan does not end keeps the connection until cancelled: nobody finishes and the table stays as it is |
| Transactions.HangReached | internal/store/ipalloc.go:50-57 | with prefix length 0, some run of creates from the empty table fills the block, and one more create gets into its endless scan in three statements |
| Transactions.CancelledScanNeverReturns | internal/store/store.go:163-167 | cancelling such a caller gives the connection back, and under every later schedule it never returns |
| Provisioning.Node.SyncPeers | internal/wg/controller.go:61-100 | all enabled rows parse and the device is replaced as a whole, or the live set is untouched |
| Provisioning.Node.Apply | internal/wg/wg.go:95-104 | it succeeds iff writing, listing and configuring work and every enabled row parses; then file and device were both written from listings of the current table; failure leaves the device untouched, and the file unless it was written |
| Provisioning.Node.UpsertPeer | internal/node/service.go:100-129 | an empty id is replaced by the generated one and table and answer become those of the store; success iff it stored, applying works and all enabled rows parse, and then file and device were written from the table; failure leaves the device untouched; while the scan goes on nothing changes |
| Provisioning.Node.DeletePeer | internal/node/service.go:132-144 | the row is gone whether or not applying works; success iff the deletion and applying work and all remaining enabled rows parse, and then file and device were written from the table; failure leaves the device untouched |
| Provisioning.Node.ResyncPeers | internal/node/service.go:44-69 | success leaves exactly the old rows in the keep list, unchanged, and names each listed-but-absent id once; failure has deleted no kept row; it succeeds whenever listing, every deletion and every apply work and all enabled rows parse; a table with nothing to delete is left alone |
| Provisioning.ResyncInNames | internal/node/service.go:44-69 | id by id: no row is changed, no listed row goes, and after a success the rows left are the listed ones and the missing ids are the listed ones without a row |
| Provisioning.AppliedParses | internal/wg/controller.go:61-100 | file and device are only ever written from a table whose enabled rows all parse |
| Provisioning.ResyncIsIdempotent | internal/node/service.go:44-69 | a second resync call with the same list changes neither table, file nor device, and misses the same ids |
| Provisioning.RoutesAreDisjoint | internal/wg/controller.go:61-100 | whatever is configured, no route, compared as a prefix, belongs to two live peers |
| Provisioning.LiveAddressesDisjoint | internal/wg/controller.go:61-100 | a device configured from a table of host addresses allows no address for two live peers |
| Provisioning.DistinctConfigsHold | internal/wg/controller.go:61-100 | configurations with distinct keys and routes are all live, each with its own preshared key and route, and nothing else is |
| Provisioning.AppliedMirrorsIff | internal/wg/wg.go:95-171 | after a successful apply the file holds exactly the enabled rows, and the device does iff no two enabled key texts denote one key |
| Provisioning.MirroredRow | internal/wg/controller.go:61-100 | a mirrored enabled row is live under its own key, with its own preshared key and exactly its host address |
| Provisioning.SharedKeyLosesPeer | internal/wg/controller.go:61-100 | of two enabled rows whose key texts denote one key, on every device configured from the table the address of at least one is allowed for nobody |
| Provisioning.RunsMirror | internal/node/service.go:44-144 | over every run of upserts, deletes and resyncs with any failures: addresses of live peers are disjoint throughout, every success that changed anything leaves file and device mirroring the table (the device iff key texts denote distinct keys), a failed upsert or delete leaves the live set |
| Usage.GatewayBridge.BuildUsageReport | internal/node/gateway.go:200-240 | samples and report are the fold of the transfers over the previous samples; an unreadable table changes nothing |
| Usage.UnseenPeer | internal/node/gateway.go:214-218 | a peer whose key is not among the transfers is neither sampled nor charged |
| Usage.SeenPeer | internal/node/gateway.go:219-237 | a peer whose key is among the transfers is charged its delta once and sampled at its counter |
| Usage.ReportEntries | internal/node/gateway.go:211-238 | a report has an entry for exactly the transfers of known keys in which something moved, with the peer, the counters minus the last sample (or the counters themselves after a reset) and the handshake time |
| Usage.IndexOfListing | internal/node/gateway.go:206-209 | over a consistent table the key index maps each stored key to its peer, no two keys to one peer, and holds no other key |
| Usage.OtherTextNeverMetered | internal/wg/controller.go:124-147 | a row whose key text is not the one the device prints is neither sampled nor charged |
| Usage.NeverOverReported | internal/node/gateway.go:200-240 | over every run of traffic, resets, rebindings, deletes, failed and completed reports in which no listed key of the peer has changed hands when counters are read, it is charged at most the bytes it moved plus the counters it found on its keys |
| Usage.ReadKeepsBoundIff | internal/node/gateway.go:202-210 | the report being built keeps that bound under any traffic before its counters are read iff no key listed for the peer has changed hands |
| Usage.StaleListingIsCharged | internal/node/gateway.go:202-210 | a key deleted, restarted and given to another peer between listing and reading charges its former owner for bytes it did not move |
| Usage.FreshKeysNeverOverReport | internal/node/gateway.go:200-240 | when moreover every further key it is given starts at zero, a peer is charged at most what it moved plus its starting counter |
| Usage.Balance | internal/node/gateway.go:200-240 | over every run, exactly: moved plus inherited is the current counter plus what vanished with resets and key changes, and reported is the last sample plus the samples given up |
| Usage.ReportsTelescope | internal/node/gateway.go:219-227 | over every run the reported sum equals the last sample iff no sample was below the one before |
| Usage.ReportedIsLastSample | internal/node/gateway.go:219-227 | in a run that resets or drops no counter of the peer, gives it no further key and reads for no stale listing, the reported sum is its last sampled counter |
| Usage.EverythingIsReported | internal/node/gateway.go:219-237 | if the peer also still exists, after a report everything it moved, with its starting counter, has been reported |
| Usage.InheritedCounterIsCharged | internal/node/gateway.go:219-227 | a key rebound without a counter restart charges the new peer for bytes it did not move |
| IdentityHandoff.HandoffIsSafe | internal/drop/identity.go:26-72 | one mnemonic, empty volume, every interleaving and crash: the installed pair is the generated or the derived one, no conflict is marked, the ready file implies a completable hand-off, and a completed sidecar run leaves the derived pair |
| IdentityHandoff.InstalledStays | deploy/compose/kubo-init.sh:10-53 | once installed, the derived pair is never replaced |
| IdentityHandoff.HandoffRecovers | deploy/compose/kubo-init.sh:10-53 | after any crashes, one undisturbed node run and one sidecar run install the derived pair, remove the key file, and the next node run succeeds |
| IdentityHandoff.NodeEnds | internal/drop/identity.go:34-71 | what an undisturbed preparation leaves in the directory and reports, for every unmarked repository |
| IdentityHandoff.MarkedNodeRun | internal/drop/identity.go:34-38 | a preparation on a marked repository reports the conflict and touches nothing |
| IdentityHandoff.SideRunIs | deploy/compose/kubo-init.sh:10-53 | what an undisturbed sidecar run leaves of any repository: kept, replaced, marked or given up, and every file |
| IdentityHandoff.SideEnds | deploy/compose/kubo-init.sh:10-53 | an undisturbed sidecar run on a prepared repository installs the derived pair and clears the hand-off |
| IdentityHandoff.MixIsReachable | internal/drop/identity.go:39-49 | two different mnemonics can install the peer id of one with the key of the other |
| IdentityHandoff.NeverMixedIff | internal/drop/identity.go:39-49 | no run installs a mixed pair iff all mnemonics used derive one identity |
| IdentityHandoff.ForeignIdentityKept | deploy/compose/kubo-init.sh:17-22 | a repository with an identity and no key file keeps that identity in every later run, whatever mnemonics are used |
| IdentityHandoff.ConflictIsPermanent | internal/drop/identity.go:34-38 | from a marked repository naming another peer on, in the middle of anything but a run with its own mnemonic, the marker stays and every preparation reports the conflict, with any mnemonics |
| IdentityHandoff.ConflictArises | deploy/compose/kubo-init.sh:17-22 | one node run and one sidecar run with another mnemonic lead an unmarked repository with an identity of its own there |
| IdentityHandoff.RestoringHelpsIff | internal/drop/identity.go:34-71 | on an idle repository some run with its own mnemonic gets a preparation to succeed iff no marker is set, or the peer id file agrees and the sidecar may start |
| IdentityHandoff.MarkerCanComeTooLate | internal/drop/identity.go:34-38 | a marker written while a run with the own mnemonic is past its check stops neither that run nor the sidecar run that clears it |
| IdentityHandoff.ForeignGetsMarked | deploy/compose/kubo-init.sh:17-22 | an undisturbed sidecar run on a foreign identity writes the marker and changes nothing else |
| IdentityHandoff.ForeignAlwaysConflicts | internal/drop/identity.go:62-67 | with a fixed mnemonic every preparation on a foreign identity reports the conflict, and a written marker persists |
| IdentityHandoff.ConflictCanBeSpurious | internal/drop/identity.go:62-67 | a node restarted before the sidecar's installation reports a conflict that the sidecar then resolves |
| IdentityHandoff.SpuriousIff | internal/drop/identity.go:62-67 | with one mnemonic from an empty volume, a node run reports a conflict iff a configuration exists without the derived identity |
| IdentityHandoff.KuboRepo.PrepareKuboIdentity | internal/drop/identity.go:26-72 | the file operations in sequence are the node's steps run to the end |
| IdentityHandoff.KuboRepo.InitScript | deploy/compose/kubo-init.sh:10-53 | the script's file operations in sequence are the sidecar's steps run to the end |
| Streaming.BoundedReader.Read | internal/drop/client.go:358-373 | one read is the specified step on the wrapped source and count |
| Streaming.LimitReadCloser.Read | internal/drop/client.go:380-395 | one read is the specified step on the wrapped source and remainder |
| Streaming.ReadersAgree | internal/drop/client.go:352-395 | both readers answer every sequence of calls alike, with remaining = max - n throughout |
| Streaming.CopyLoop | internal/drop/client.go:126 | the copy loop forwards and returns what the specification of the copy does |
| Streaming.CopyForwards | internal/drop/client.go:121-144 | whatever the split, exactly the first min(length, limit) bytes are forwarded; a longer source is a byte-limit error, else the source's ending decides |
| Streaming.AddAndPin | internal/drop/client.go:106-144 | accepted iff the whole body has the declared size, ends properly and matches the digest; otherwise the error is exactly the one that applies |
| Streaming.DigestIsCompared | internal/drop/client.go:130-133 | against a digest in lower-case hexadecimal exactly its own digits match, in either letter case and with any spaces around them |
| Streaming.ReadAllReads | internal/drop/client.go:341-350 | a source shorter than the limit is read whole or breaks, a longer one fills the limit or breaks |
| Streaming.ReadBounded | internal/drop/client.go:341-350 | succeeds iff the response is complete and at most 1048576 bytes long, and returns it whole |
| DropService.Service.Start | internal/drop/service.go:60-73 | starting is the machine's step: the state about which the run theorems below speak |
| DropService.Service.Refresh | internal/drop/service.go:183-206 | a poll is the machine's step on the snapshot |
| DropService.Service.BeginUpload | internal/drop/service.go:94-100 | the writable check is the machine's step; the upload goes on iff it is pending afterwards, else it is told disabled or unavailable |
| DropService.Service.FinishUpload | internal/drop/service.go:101-112 | the checks against the snapshot read are the machine's step, the answer is the admission decision, and the upload passes iff a request reached Kubo |
| DropService.Service.Operate | internal/drop/service.go:124-160 | the other operations are the machine's step; they pass iff a request reached Kubo, else they are told disabled or unavailable |
| DropService.AdmitIff | internal/drop/service.go:101-111 | for every repository size an upload passes iff it is between 0 and 1000000000 bytes, within its own limit if it has one, and within the free space as integers, and the free space is representable in 64 bits |
| DropService.RefusalIs | internal/drop/service.go:101-111 | which error a refused upload gets: byte limit above 1000000000 bytes, else storage full without room, else byte limit |
| DropService.UploadReachesIff | internal/drop/service.go:101-112 | in every run an upload past its writable check reaches Kubo iff it fits the snapshot of that moment, with its own limit or 1000000000 |
| DropService.PreparedIsReady | internal/drop/service.go:60-73 | one successful preparation makes an enabled service ready and polling for the rest of every run |
| DropService.LastPollDecides | internal/drop/service.go:183-212 | once prepared, until the next poll: without an answer nothing reaches Kubo, with a version operations do, with statistics uploads are taken on iff the repository is below the maximum; the snapshot reports what was polled |
| DropService.LastFailureDecides | internal/drop/service.go:64-69 | after a failed preparation no upload is taken on, and operations go on iff another one succeeded |
| DropService.NothingBeforePoll | internal/drop/service.go:48-58 | before the first poll nothing reaches Kubo, whatever else happens |
| DropService.AdmissionExactIff | internal/drop/service.go:105-106 | admission is exact for every upload iff storageMax - repoSize is at most 2^63 - 1 |
| DropService.NegativeSizeCanRefuse | internal/drop/service.go:105-106 | a negative repository size wraps the subtraction and refuses an upload that fits |
| DropService.DropIsTruthful | internal/drop/service.go:183-212 | in every reachable state the snapshot carries the configured maximum, active and full agree with the size, and every upload that reached Kubo fits the snapshot it read |
| DropService.IdentityFirst | internal/drop/service.go:60-73 | in every run no request reaches Kubo unless a preparation of the identity succeeded before, however often it failed |
| DropService.OutlivesActiveIff | internal/drop/service.go:98-112 | in every run an upload past its writable check reaches Kubo against a snapshot that is not active iff the last replacement since was one without statistics and the upload fits an empty repository |
| DropService.UploadMayOutliveActive | internal/drop/service.go:98-104 | a poll between the two checks lets an upload reach Kubo while it is unreachable |
| CarrierSecrets.SettingsStore.LoadOrCreateKeys | internal/wg/wg.go:118-146 | the reads and writes in sequence, stopping at the first failure, are the specified load |
| CarrierSecrets.SettingsStore.LoadOrCreateCert | internal/stealth/tlscert.go:26-50 | likewise for the certificate pair |
| CarrierSecrets.SettingsStore.LoadOrCreateSecrets | internal/stealth/secrets.go:41-82 | likewise for the carrier secrets |
| CarrierSecrets.LoadedPairsBelong | internal/wg/wg.go:118-146 | after any loads interrupted anywhere, a returned pair with both halves non-empty belongs together; certificate loads return only such pairs |
| CarrierSecrets.TornCertificateRepaired | internal/stealth/tlscert.go:35-50 | a torn certificate pair is replaced as a whole by the next completed load |
| CarrierSecrets.TornKeysStay | internal/wg/wg.go:118-146 | a torn key pair is never repaired: every later load completes with an empty public half and writes nothing |
| CarrierSecrets.KeysCompleteIff | internal/stealth/secrets.go:44-66 | a completed key load yields both halves iff the stored pair was not torn |
| CarrierSecrets.PairLoadsIff | internal/stealth/tlscert.go:26-50 | a pair load completes iff it gets its settings operations: two, or four when it has to generate |
| CarrierSecrets.SecretsLoadIff | internal/stealth/secrets.go:41-97 | loading all secrets completes iff every read, and every write of a missing one, gets its operation |
| CarrierSecrets.LoadsAreStable | internal/stealth/tlscert.go:26-50 | after one complete load every later load returns the same pair and writes nothing |
| CarrierSecrets.LoadReturnsStored | internal/stealth/secrets.go:41-97 | a completed load returns exactly what is then stored; no load changes a secret already held |
| CarrierSecrets.StealthManager.InitManager | internal/stealth/stealth.go:58-71 | memory changes only when secrets and certificate both load |
| CarrierSecrets.StealthManager.StartInstance | internal/stealth/stealth.go:75-99 | with stealth enabled and secrets in memory a start that works makes the instance serve them (StartServes); a failed start changes nothing |
| CarrierSecrets.StealthManager.CloseInstance | internal/stealth/stealth.go:157-167 | nothing is served afterwards |
| CarrierSecrets.StealthManager.RotateRealityShortID | internal/stealth/stealth.go:138-154 | the steps of the short-id rotation with every failure exit |
| CarrierSecrets.StealthManager.RotateAllSecrets | internal/stealth/stealth.go:103-134 | the steps of the full rotation with every failure exit |
| CarrierSecrets.RunningServesMemory | internal/stealth/stealth.go:75-167 | under arbitrary write and start failures, and rotations by other processes, a running carrier serves exactly the secrets in memory |
| CarrierSecrets.StartServes | internal/stealth/stealth.go:75-99 | in every run: with stealth enabled and secrets in memory a start that works reports success and serves them, otherwise it fails and changes nothing; without stealth nothing is ever served |
| CarrierSecrets.RealityRotationServes | internal/stealth/stealth.go:138-154 | in every run a short-id rotation of a serving manager succeeds iff the id is stored and the restart works, and then serves the new id beside the other secrets served before |
| CarrierSecrets.FullRotationServes | internal/stealth/stealth.go:103-134 | in every run a full rotation of a serving manager succeeds iff its eight settings operations and the restart work, and then serves what is stored: the new VLESS id, short id and Hysteria2 password |
| CarrierSecrets.FullRotationAgrees | internal/stealth/stealth.go:103-134 | every successful full rotation leaves memory, and what is served, equal to the stored settings, whatever failed before |
| CarrierSecrets.RealityRotationAgreesIff | internal/stealth/stealth.go:138-154 | a successful short-id rotation does so iff the VLESS id and the Hysteria2 password agreed before |
| CarrierSecrets.DisagreesIffBehind | internal/stealth/stealth.go:103-134 | after any run with full rotations here and in other processes, memory and settings disagree on VLESS id or Hysteria2 password iff a full rotation stored a secret this manager has not loaded since |
| CarrierSecrets.RealityRotationAgreesIffCurrent | internal/stealth/stealth.go:138-154 | a successful short-id rotation leaves memory equal to the settings iff no full rotation, here or elsewhere, was left unloaded |
| CarrierSecrets.RealityRotationCanDisagree | internal/nodeapp/rotate.go:45-67 | the node is loaded, the rotation command succeeds with its own memory equal to the settings, and the node's short-id rotation then succeeds with the replaced VLESS id in memory |
| CarrierSecrets.RotationsKeepKeyPair | internal/stealth/stealth.go:103-154 | no rotation, successful or not, here or in another process, changes the REALITY key pair in memory or in the settings |
| RotationLedger.CredentialStore.Insert | internal/store/carriers.go:23-40 | a row is appended, or nothing changes |
| RotationLedger.CredentialStore.DeactivateExpired | internal/store/carriers.go:43-50 | exactly the active rows with a positive expiry at or before the given time become inactive; nothing else changes |
| RotationLedger.CredentialStore.RecordAll | internal/carriers/rotate.go:90-109 | one row per non-empty secret, stopping at the first failed insert |
| RotationLedger.Rotator.RotateCarriers | internal/carriers/rotate.go:30-111 | archive, rotate, record and clean up, with every failure exit; RotationInNumbers says what that writes |
| RotationLedger.RotateEffect | internal/carriers/rotate.go:30-82 | one rotation, successful or not: the ledger only grows or retires; success records replaced secrets with expiry and new ones without, and cleanup leaves no expired row active |
| RotationLedger.RotationInNumbers | internal/carriers/rotate.go:30-111 | with stealth enabled and secrets loaded a rotation succeeds iff six inserts, eight settings operations and a needed restart work; it then appends exactly six rows: the three replaced secrets expiring at the second in which time plus grace lies (24 hours if none is given), the three new ones without expiry; a failed one leaves exactly those of the six it got to |
| RotationLedger.DisabledRecordsNothing | internal/carriers/rotate.go:57-64 | without stealth a rotation records nothing |
| RotationLedger.RotationRecordsSecrets | internal/carriers/rotate.go:46-111 | with stealth enabled a successful rotation leaves, transport by transport, unexpiring rows for the new VLESS id, Hysteria2 password and short id and expiring rows for the replaced ones |
| RotationLedger.LedgerOnlyGrows | internal/store/carriers.go:23-50 | between any two points of a run rows are never removed, changed or reactivated |
| RotationLedger.RotationIsRecorded | internal/carriers/rotate.go:46-75 | for ever after a successful rotation, the secrets it replaced have rows with its time stamp, label and expiry, and those it introduced rows without expiry |
| RotationLedger.IntroducedStaysActive | internal/carriers/rotate.go:56-75 | every secret a rotation introduced keeps an active unexpiring row, also after it was replaced |
| RotationLedger.ShortIDRecordedIff | internal/carriers/rotate.go:56-75 | after a successful full rotation the node has loaded, its current short id has an active unexpiring row iff no short id has been stored on its own since |
| RotationLedger.ActivityIsExact | internal/carriers/rotate.go:76 | after successful cleaned rotations at non-decreasing times a row is active iff it never expires or expires after the last one |
| SentinelPolicy.DnsZoneIdempotent | internal/sentinel/policy/policy.go:98-102 | normalising a zone twice is normalising it once |
| SentinelPolicy.BaseOf | internal/sentinel/policy/policy.go:98-102 | the zone of a name is its lower-cased characters; spaces around it and one dot after it do not count |
| SentinelPolicy.QuoteRoundTrip | internal/sentinel/policy/policy.go:66-71 | a quoted zone reads back as it was, whatever follows it, and contains no newline |
| SentinelPolicy.Render | internal/sentinel/policy/policy.go:55-71 | the loop's texts are the fragments of the enabled block and allow rules' zones, in order; a name falls under a zone that reads back from the block text with always_nxdomain iff some enabled rule with action block, domain_block or wildcard_domain_block covers it, and from the allow text with transparent iff some enabled rule with action allow or domain_allow does |
| SentinelPolicy.ZonesInOrder | internal/sentinel/policy/policy.go:55-71 | rules contribute their zones independently and in order |
| SentinelPolicy.WildcardBlocks | internal/sentinel/policy/policy.go:62-68 | a block rule for *.d blocks exactly the names whose labels end in those of d, in any letter case and with any spaces around the target |
| SentinelPolicy.PlainLine | internal/sentinel/policy/policy.go:66-71 | the line of a zone of ordinary characters, in full |
| SentinelPolicy.FragmentReadsBack | internal/sentinel/policy/policy.go:55-71 | reading a generated fragment line by line yields exactly those zones, in order |
| SentinelPolicy.LabelSuffix | internal/sentinel/policy/policy.go:63-71 | ending in a name at a label boundary is having its labels as a suffix |
| SentinelPolicy.CoveredIff | internal/sentinel/policy/policy.go:55-102 | likewise on the list of zones that the text reads back to: a name falls under one iff an enabled rule of that kind has a target or wildcard base that is a label suffix of it |
| ByteSize.ParseByteSize | internal/config/config.go:350-381 | accepted texts yield exactly count times unit as an integer in 1 to 2^63 - 1; all others are refused |
| ByteSize.SpelledSize | internal/config/config.go:350-381 | spaces, an optional sign, digits, spaces, TB, GB, MB, KB, B or nothing in any letter case, and spaces: the size is the count times 10^12, 10^9, 10^6, 10^3 or 1 if there is no minus and it lies in 1 to 2^63 - 1, else the text is refused |
| ByteSize.SizeIsSpelled | internal/config/config.go:350-381 | every accepted text is of that form |
| ByteSize.Itoa | internal/speedtest/speedtest.go:140-152 | the 20-byte buffer never underruns and the text is the canonical decimal of every n in 0 to 2^63 - 1 |
| ByteSize.PrintedSizeParses | internal/config/config.go:350-381 | a printed count followed by any unit, in any letter case and spacing, parses to count times unit iff the count is positive and the product fits |
| ByteSize.PrintedCountParses | internal/config/config.go:376-380 | a printed count alone parses back to itself |

## Left out

- HTTP handlers, the WebSocket and REST gateway clients, the dashboard, the CLI and metrics: input, output and presentation.
- SQLite internals and migrations: only the table, its UNIQUE columns, transaction atomicity and the single connection remain.
- Cryptography (key derivation, hashes, certificates, WireGuard key parsing): arbitrary functions or a matching relation.
- sing-box options, share URIs, wg-quick and template text: thin wrappers over foreign libraries.
- IPv6: an IPv6 subnet or stored address counts as one that does not parse, although the source's parser accepts it.
- Ipv4.ContainsIsInterval: the mask test is modelled on equal-length addresses, as the allocator only compares those.
- Allocator.AllocateIP: the loop is watched for any chosen number of iterations, because a method here must end; the endless scan is the case in which no number suffices.
- PeerStore.Store.UpsertPeer: database errors other than UNIQUE violations appear only as cancellations in Transactions.
- Provisioning.Node.Apply: calls run one after another; the source does not serialise listing and syncing across callers, and then the device may lag behind the table.
- Usage.EverythingIsReported: row keys and device keys are the same text here; Usage.OtherTextNeverMetered says what happens otherwise. Reports are built one at a time.
- IdentityHandoff.HandoffIsSafe: creating the repository and each `ipfs config` call are atomic, a generated identity never equals a derived one, and an unreadable directory or configuration is not modelled.
- Streaming.AddAndPin: the multipart framing, Kubo's answer and its content id, and a failing pipe are not modelled; the read buffer size only shapes the split, and case folding of the digest covers ASCII letters only.
- Sources that return no bytes and no error for ever: a source has finitely many such reads.
- CarrierSecrets.FullRotationAgrees: calls of different processes do not overlap statement by statement; a short id the node stores after the command has read it back is not in the command's memory.
- RotationLedger.ShortIDRecordedIff: the hash of a short id rotated on its own is assumed to be in no earlier row.
- CarrierSecrets.DisagreesIffBehind: a generated VLESS id is assumed to differ from the one in memory.
- RotationLedger.RotateEffect: row ids and the scope column, which is determined by the peer label, are not modelled.
- SentinelPolicy.Render: rewrite rules and upstreams, whose meaning depends on Unbound's own syntax, are not modelled.
- SentinelPolicy.QuoteRoundTrip: reading back follows the escapes of Go's quoting; that Unbound reads unusual escapes the same way is not claimed. Names are compared as given, so a query name is meant in lower case.
- ByteSize.ParseByteSize: upper-casing covers ASCII letters only; no other letter has an upper case that occurs in an accepted text.
- Environment loading, readiness labels, region tables, access lists, transport scoring and reconnect backoff: short case splits that would only add easy members.
