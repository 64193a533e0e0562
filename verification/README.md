# Verified model of linux-tpm-fido2

A Dafny model of a TPM-backed FIDO2 authenticator daemon: the CTAPHID framing,
the CTAP2 command state machine, the TPM PolicyAuthorize protocol, the
credential store with its integrity MACs, and the batch operations of the
management socket. `dafny verify dfyconfig.toml` checks everything.

## What is modelled

* **CTAPHID framing** (`CtapHid`, `CtapHidRuns`, `CtapHidService`). `PacketHandler` is a
  class with the map of partial requests and the CID counter. One report is a step on one
  channel (`ChannelStep`); a run over a trace of reports is the composition of
  these steps. `CtapHidService` states what travels and what is asked and answered on
  each channel. The protocol is section 11.2.4 of FIDO CTAP 2.1.
* **The authenticator** (`Ctap2`, `Ctap2Runs`, `Ctap2Exchanges`, `Ctap2Limits`, with its
  invariants on values in `AuthState` and its index lists in `Selection`). `Authenticator` is a
  class with the source's fields, an explicit clock, and ghost histories of released
  sign counts, token events and PIN comparisons. What the world decides about one
  command (clock readings, session checks, approval, TPM and store outcomes, random
  values) is the parameter `Env`. `Outcome` relates the snapshots before and after a
  command: its answer, its effect and exactly the events it adds to the histories. A
  run is a sequence of snapshots linked by such steps. `Ctap2Exchanges` says what two or
  more steps of a run mean to each other, in terms of requests and answers alone.
  Sections 6.1 to 6.3, 6.5, 6.6 and 6.8 of FIDO CTAP 2.1 describe the commands.
* **The TPM protocol** (`TpmModel`, `TpmPolicy`, `TpmLifecycle`). `Context` is an
  abstract TPM with a PCR bank, an update counter, transient object slots, policy
  sessions and tickets; `Tpm` issues the source's exact command sequences against
  it. Digests, names and signatures are symbolic, so they are equal only when built
  alike. Before every single command the environment may extend any PCRs, and it may
  make the command fail. Sections 23.7, 23.11 and 23.16 of TPM 2.0 Library Part 3
  describe the policy commands.
* **The store** (`Store`, `Database`). The tables are a map from credential id to
  row, and each operation is one transaction with an explicit failure flag.
* **Encodings** (`Bytes`, `Der`, `Cbor`, `Canonical`, `PcrSelection`): DER signatures
  (sections 8.3 and 10.1 of X.690), the CBOR encoding of values with an independent reader
  (section 3 of RFC 8949) and the canonical order (section 8 of FIDO CTAP 2.1), PCR selection names.
* **Batches** (`Management`): the passphrase change and the PCR-reference renewal.

## Where the code differs from what one would expect

These are stated as exact conditions, each proved in both directions unless noted.

* A message survives framing exactly when its payload is at most 7609 bytes;
  `encode_message` itself accepts longer ones (`CtapHidRuns.RoundTripExactly`).
* The broadcast CID is itself handed out, once every 2^32 - 1 allocations
  (`CtapHidRuns.AllocatedCidsAreDistinct`).
* `ecdsa_der` is readable exactly while its content is at most 127 bytes
  (`Der.SignatureRoundTripExactly`).
* An empty PCR list prints as `sha256:` and does not parse
  (`PcrSelection.SelectionRoundTripExactly`).
* A selection of more than eight PCRs never passes, because one PCR read returns at
  most eight digests (`TpmLifecycle.PassesWhenQuiet`).
* A flush that fails inside a drop guard leaves exactly one handle behind
  (`TpmPolicy.Tpm.SignDigestWithPolicy`, `TpmLifecycle.AssertMany`).
* A save writes back one session's cache: a row is lost exactly when the cache does not
  have it, so a registration drops the rows of other users, and after a failed load all
  rows (`AuthState.SaveLosesExactly`, `Ctap2Limits.RegisterAndForget`, with a run in
  `Ctap2Limits.TwoUsers`).
* A row saved without an owner but with a MAC fails the integrity check of any load
  filtered by a non-zero uid (`Database.MacAcceptedExactly`).
* Deleting a credential keeps a pending assertion on its credentials exactly when all
  its indexes lie below the deleted one (`AuthState.PendingSurvivesDeleteExactly`).
  `Ctap2Limits.AssertDeleteNext` says how every run of getAssertion, deleteCredential and
  getNextAssertion ends; in `Ctap2Limits.Misdirected` the answer is for another relying
  party, and in `Ctap2Limits.Panics` an index past the end makes the source panic.
* Enumeration shows a credential twice exactly when two relying parties share a hash
  (`Selection.EnumeratedOnceExactly`).
* A passphrase change whose listing fails reports failure although the daemon
  passphrase has changed (`Management.Daemon.UpdatePassphrase`, with an input in
  `Management.FailedListingChangesPassphrase`).
* Credential management accepts a request without any pinUvAuthParam, and only the low
  byte of the sub-command enters the authenticated message
  (`Ctap2.Authenticator.HandleManagement`, `Canonical.AuthMessageExactly`).

## Model

| member | source | states |
|---|---|---|
| `CtapHid.PacketHandler.HandlePacket` | src/ctaphid.rs:96-109 | a report of the wrong size changes nothing; any other is one `ChannelStep` on its own channel, which fixes the new partial request, reply, authenticator call and CID counter |
| `CtapHid.PacketHandler.HandleInitPacket` | src/ctaphid.rs:111-149 | an initialization report refines `ChannelStep`, keeping the invariant on partial requests |
| `CtapHid.PacketHandler.HandleContinuationPacket` | src/ctaphid.rs:151-180 | a continuation report refines `ChannelStep`; the remaining length never underflows |
| `CtapHid.ChannelStep` | src/ctaphid.rs:111-180 | every partial request keeps key = cid, length = 57 + 59 * sequence < expected <= 7609 and sequence <= 127; a delivered payload is at most 7609 bytes |
| `CtapHid.PacketHandler.Dispatch` | src/ctaphid.rs:182-219 | reply, authenticator call and CID allocation of a complete message; pending requests untouched; what is asked and answered over whole runs is `CtapHidService.ServeStreams` |
| `CtapHid.EncodeMessage` | src/ctaphid.rs:300-325 | the packet loop produces exactly the initialization packet and continuation packets of `Encode` |
| `CtapHidRuns.Serve` | src/ctaphid.rs:96-180 | over any trace the handler's partial requests, CID counter, replies and calls are those of the run functions |
| `CtapHidRuns.ChannelsAreIndependent` | src/ctaphid.rs:96-180 | what happens on a channel in any trace depends only on that channel's reports |
| `CtapHidRuns.MessageRoundTrip` | src/ctaphid.rs:300-325 | an encoded message is delivered once, unchanged, from any channel state, and leaves the channel idle |
| `CtapHidRuns.RoundTripExactly` | src/ctaphid.rs:111-149 | a message is delivered if and only if its payload is at most 7609 bytes |
| `CtapHidRuns.InterleavingsDeliverEveryMessage` | src/ctaphid.rs:96-180 | any interleaving of encoded streams on distinct channels delivers each stream exactly, in order |
| `CtapHidRuns.PingEchoesItsPackets` | src/ctaphid.rs:182-219 | the reply to a PING is byte for byte its request packets |
| `CtapHidRuns.DeliveredIsBounded` | src/ctaphid.rs:111-180 | no sequence of reports delivers more than 7609 bytes |
| `CtapHidRuns.StreamRoundTrip` | src/ctaphid.rs:300-325 | a sequence of messages on one channel is delivered as that sequence |
| `CtapHidRuns.AllocationCycle` | src/ctaphid.rs:182-219 | the k-th allocated CID is 1 + k mod (2^32 - 1) |
| `CtapHidRuns.AllocatedCidsAreDistinct` | src/ctaphid.rs:182-219 | CIDs repeat only after a full cycle, are never 0, and hit the broadcast CID once per cycle |
| `CtapHidRuns.InitIsAnswered` | src/ctaphid.rs:182-219 | in any run the answer to an INIT on the broadcast channel carries the CID of its turn |
| `CtapHidRuns.ServeNew` | src/ctaphid.rs:96-219 | over any trace a new handler answers two INITs with different CIDs unless a full cycle of allocations lies between them |
| `CtapHidService.EncodedBytes` | src/ctaphid.rs:300-325 | every byte of every report of a message by its position: channel, command or sequence number, length, data and padding |
| `CtapHidService.ServeStreams` | src/ctaphid.rs:96-219 | over any interleaving of encoded streams the authenticator is handed exactly the payload of each CBOR message and one cancel per CANCEL, in order per channel, and nothing at any other report; each message gets one reply, on its channel, in order: its echo, an INIT answer with the nonce, the authenticator's own reply, or an error |
| `CtapHidService.FaultyReports` | src/ctaphid.rs:111-180 | from any channel state: an oversized announcement, an unknown command and an out-of-turn continuation are answered with error codes 3, 1 and 4, and only the second keeps what was being received; a continuation of nothing is ignored |
| `Ctap2Exchanges.SetPinExactly` | src/ctap2.rs:1088-1117 | setPIN succeeds if and only if no PIN is set, keys were agreed on, the MAC is right, the PIN has 4 to 63 bytes without a zero and its state can be stored |
| `Ctap2Exchanges.ChangePinExactly` | src/ctap2.rs:1119-1159 | changePIN succeeds if and only if the same holds of the new PIN and the hash derives the stored verifier with retries left; otherwise a compared hash costs a retry or restores them |
| `Ctap2Exchanges.SetThenToken` | src/ctap2.rs:1105-1195 | after setting or changing to PIN P, a token is granted for a 16-byte hash if and only if it derives the same verifier as the first 16 bytes of P's SHA-256 |
| `Ctap2Exchanges.TriesCost` | src/ctap2.rs:1250-1280 | after n wrong PINs 8 - n retries are left, at least 0, and none was granted a token |
| `Ctap2Exchanges.WrongTriesThenRight` | src/ctap2.rs:1161-1280 | getPINRetries then answers that number, and the right PIN is granted a token if and only if n < 8 |
| `Ctap2Exchanges.UvTokenExactly` | src/ctap2.rs:1197-1233 | a token without a PIN is granted if and only if keys were agreed on, some permission is asked for, a relying party is named where assertions are, and the user approves in an unchanged session |
| `Ctap2Exchanges.GrantThenMake` | src/ctap2.rs:1393-1441 | a granted token authenticates the next makeCredential if and only if its MAC is over client data hash and relying party and permission, party and 600 s fit; the user is verified then; a presented misfit fails and drops the token |
| `Ctap2Exchanges.GrantThenAssert` | src/ctap2.rs:557-684 | the same for getAssertion, over the client data hash |
| `Ctap2Exchanges.GrantThenManage` | src/ctap2.rs:906-958 | the same for credential management, over sub-command and parameters, and only with a token without a relying party |
| `Ctap2Exchanges.RegisterExactly` | src/ctap2.rs:381-555 | makeCredential registers if and only if the request is complete, no credential of its relying party is excluded, it is authentic or carries no parameter, is approved, and the TPM works; field by field what the new credential holds |
| `Ctap2Exchanges.SavedShown` | src/ctap2.rs:1298-1334 | a saved credential is shown to its owner by a load exactly once, as it was |
| `Ctap2Exchanges.RegisterThenAssert` | src/ctap2.rs:519-684 | after a stored registration, asking for the new id is answered, through save and reload, with its user handle and count 1, names only for a verified user, and fails for any other relying party |
| `Ctap2Exchanges.ReachedExactly` | src/ctap2.rs:906-958 | a management command reaches its sub-command if and only if the passphrase is set or it is the preview command, the session is unchanged, a PIN is set, and it carries no parameter or one the live token covers; otherwise it fails and changes nothing |
| `Ctap2Exchanges.DeleteExactly` | src/ctap2.rs:1044-1063 | a deleteCredential built for an id removes that discoverable credential from cache and store and no other, if and only if it is reached, there is one and the store can delete it |
| `Ctap2Exchanges.UpdateExactly` | src/ctap2.rs:1065-1086 | an updateUserInformation built for an id and a user entity gives that credential the entity's names, absent ones erased, and its handle if any, and nothing else changes |
| `Ctap2Exchanges.NothingWithoutPassphrase` | src/ctap2.rs:254-319 | without a daemon passphrase registration, assertion and management are denied and leave credentials, rows, token and counts |
| `Ctap2Exchanges.ResetExactly` | src/ctap2.rs:331-348 | a reset is done if and only if approved in an unchanged session, and then leaves no PIN, credential, cursor or row it could delete |
| `Ctap2Exchanges.LateNext` | src/ctap2.rs:686-700 | more than 30 s after an assertion, or in a changed session, getNextAssertion is denied and drops what is pending |
| `Ctap2Exchanges.LateEnumeration` | src/ctap2.rs:928-933 | more than 30 s after it began, an enumeration does not continue |
| `Ctap2Runs.Run` | src/ctap2.rs:254-348 | every run of commands, cancels, restarts and management writes: each step is the exact `Stepped` relation; in every state released counts strictly increase until saturation, accepted tokens are justified and eight wrong PINs are never followed by a right one; histories only grow; released counts are those answered; without store faults cache and visible rows agree in every state; PIN health is kept; a blocked PIN stays blocked until a reset |
| `Ctap2Runs.RunFromStart` | src/ctap2.rs:191-348 | the same from a first start on a table with owners and valid MACs, MAC key readable or not: agreement in every state and the PIN in memory equal to the stored one |
| `Ctap2Runs.VerifiedMeansIssued` | src/ctap2.rs:1393-1441 | a command whose token verifies adds one acceptance, and an undisturbed issue at most 600 s old lies behind it, without a relying party for credential management |
| `Ctap2Runs.StaysHealthy` | src/ctap2.rs:223-252 | an operation without store fault keeps cache and store in agreement when no MAC is checked or every row has owner and valid MAC |
| `Ctap2Runs.BlockedStays` | src/ctap2.rs:1250-1280 | a blocked PIN stays blocked over any operation but a reset and passes neither changePIN nor a PIN token |
| `Ctap2Runs.Step` | src/ctap2.rs:254-348 | one operation of such a run: the exact relation between the states before and after it |
| `Ctap2Runs.AssertAll` | src/ctap2.rs:557-786 | the request is matched exactly against what the store then shows: its relying party's credentials that the allow list names, or the discoverable ones; it is reached if and only if it is complete, carries no parameter or the live token's MAC with fitting scope and age, matches and is approved; then getAssertion and n - 1 getNextAssertion calls answer each match once in order, same client hash and UV flag, total only in the first, failures consuming one, and then NoCredentials |
| `Ctap2Runs.EnumerateRps` | src/ctap2.rs:960-994 | begin and next show each relying party once, in order, the first answer reporting the number shown |
| `Ctap2Runs.EnumerateCredentials` | src/ctap2.rs:996-1042 | begin and next show each credential of a relying party hash once, in order, the first answer reporting the number shown |
| `Ctap2Runs.EnumerateAll` | src/ctap2.rs:935-1042 | with the live token or without one, enumerating everything shows no credential twice if and only if relying party hashes differ, and then shows exactly the discoverable ones, as many as the metadata count |
| `Ctap2.Authenticator.HandleCbor` | src/ctap2.rs:254-319 | every command keeps the invariant and is related by `Outcome`: its exact answer and effect, one acceptance exactly when its token verifies, one PIN event per comparison, a count released only by the assertion that carries it after the store has it, store health and soundness kept |
| `Ctap2.Authenticator.constructor` | src/ctap2.rs:191-221 | a first start on any credential table establishes the invariant, the clock, the PIN's health and a cache of exactly what the store shows |
| `Ctap2.Authenticator.Restart` | src/ctap2.rs:191-221 | a restart forgets token, cursors and key agreement, reloads PIN and credentials, and keeps the released counts |
| `Ctap2.Authenticator.ReloadCredentials` | src/ctap2.rs:223-252 | the cache becomes the visible rows in store order exactly when the load succeeds; otherwise it is empty |
| `Ctap2.Authenticator.ValidatePinUvAuth` | src/ctap2.rs:1393-1441 | accepted if and only if the parameter is the live token's MAC and the token allows the operation within 600 s; a presented parameter that fails drops the token |
| `Ctap2.Authenticator.IssueToken` | src/ctap2.rs:1178-1195 | the new token replaces the old one and is recorded with its permissions and scope |
| `AuthState.AcceptedScope` | src/ctap2.rs:1161-1233 | behind every accepted token is an undisturbed issue at most 600 s old; one accepted without a relying party, as in credential management, was issued without one |
| `AuthState.TokenAcceptedOk` | src/ctap2.rs:1393-1441 | accepting a token keeps the history justified |
| `AuthState.ReleaseKeepsCounts` | src/ctap2.rs:605-683 | releasing the next persisted count keeps all released counts below cache and store |
| `AuthState.RegisterKeepsCounts` | src/ctap2.rs:519-539 | registering a fresh id keeps the count invariant |
| `AuthState.SaveKeepsCounts` | src/ctap2.rs:1298-1334 | replacing the table by the cache loses no released count |
| `AuthState.LoadEstablishes` | src/ctap2.rs:223-252 | a loaded list agrees with the visible rows and belongs to the session's user |
| `AuthState.SaveEstablishesAgreement` | src/ctap2.rs:1298-1334 | after a save the cache and the visible rows agree as maps |
| `AuthState.CountKeepsAgreement` | src/store.rs:659-685 | writing a count through keeps cache and store in agreement |
| `AuthState.DeleteKeepsAgreement` | src/ctap2.rs:1044-1063 | deleting a credential from both keeps them in agreement |
| `AuthState.PinLogExtends` | src/ctap2.rs:1250-1280 | each PIN event moves the number of wrong comparisons since the last right one as the retries move |
| `AuthState.PendingSurvivesDeleteExactly` | src/ctap2.rs:1044-1063 | a deletion leaves pending indexes on their credentials if and only if they all lie below it |
| `AuthState.DeleteCanMisdirectPending` | src/ctap2.rs:1060-1061 | three credentials for which a deletion makes a pending index name another relying party's credential |
| `AuthState.SaveLosesExactly` | src/store.rs:555-657 | a save loses a row if and only if the cache lacks it, from a healthy state if and only if it was not visible to the session |
| `Ctap2Limits.RegisterAndForget` | src/ctap2.rs:519-539 | a stored registration drops exactly the rows not in the cache, from a healthy state exactly those of other users |
| `Ctap2Limits.TwoUsers` | src/ctap2.rs:519-539 | a run in which one user's registration deletes another user's row |
| `Ctap2Limits.AssertDeleteNext` | src/ctap2.rs:686-786 | getAssertion, deleteCredential, getNextAssertion: the second match is answered as itself if it lies before the deleted credential, else as its neighbour, or with a panic if there is none |
| `Ctap2Limits.Misdirected` | src/ctap2.rs:1060-1061 | such a run answering for another relying party |
| `Ctap2Limits.Panics` | src/ctap2.rs:1060-1061 | such a run that panics |
| `Ctap2.Authenticator.HandleGetAssertion` | src/ctap2.rs:557-684 | a match is reached if and only if the request is well-formed, unauthenticated or verified, matching what the store shows and approved; then the first match is signed, its next count persisted and only then released, the others pending |
| `Ctap2.Authenticator.SignAndRelease` | src/ctap2.rs:605-683 | succeeds exactly when TPM and store do; on failure cache, store and history are unchanged |
| `Ctap2.Authenticator.HandleGetNextAssertion` | src/ctap2.rs:686-786 | a body consumes nothing, a late or foreign call drops all, and any other call consumes exactly one pending match, with success exactly when it signs and persists |
| `Selection.MatchingIsExact` | src/ctap2.rs:1936-1955 | an index is listed if and only if its credential is the relying party's and named by a non-empty allow list, or discoverable if there is none or an empty one; in increasing order |
| `Ctap2.Authenticator.HandleMakeCredential` | src/ctap2.rs:381-555 | registers if and only if the request is well-formed, not wrongly authenticated, not excluded, approved and the TPM works; the credential is appended with count 0 |
| `Ctap2.Authenticator.Register` | src/ctap2.rs:519-539 | the cache grows by the credential and is saved; a failed save leaves the table unchanged |
| `Ctap2.Authenticator.SaveCredentials` | src/ctap2.rs:1298-1334 | the table becomes exactly the cache, or stays as it was; owned rows with valid MACs stay so |
| `Ctap2.Authenticator.HandleManagement` | src/ctap2.rs:906-958 | a request that is not admitted changes nothing; an admitted one answers by its sub-command from the live cursor |
| `Ctap2.Authenticator.ExpireManagement` | src/ctap2.rs:928-933 | a cursor older than 30 s or of another user is dropped |
| `Ctap2.Authenticator.EnumerateRpsBegin` | src/ctap2.rs:960-984 | the first relying party, their number, and a cursor after it |
| `Ctap2.Authenticator.EnumerateRpsNext` | src/ctap2.rs:986-994 | the cursor's relying party, and the cursor moves by one |
| `Ctap2.Authenticator.EnumerateCredentialsBegin` | src/ctap2.rs:996-1029 | the first credential of the hash, their number, and a cursor after it |
| `Ctap2.Authenticator.EnumerateCredentialsNext` | src/ctap2.rs:1031-1042 | the cursor's credential, and the cursor moves by one |
| `Ctap2.Authenticator.DeleteCredential` | src/ctap2.rs:1044-1063 | removes the first discoverable credential of that id from cache and store, or neither |
| `Ctap2.Authenticator.UpdateUserInformation` | src/ctap2.rs:1065-1086 | replaces user data of that credential only and saves the cache |
| `Selection.CollectRpIndexes` | src/ctap2.rs:960-970 | the loop collects exactly the first discoverable credential of each relying party |
| `Selection.CollectHashIndexes` | src/ctap2.rs:1005-1012 | the loop collects exactly the discoverable credentials of the hash |
| `Selection.EnumerationIsExact` | src/ctap2.rs:935-1042 | with distinct hashes the groups partition the discoverable credentials and their totals add up to the metadata count |
| `Selection.EnumeratedOnceExactly` | src/ctap2.rs:996-1012 | no credential is enumerated twice if and only if hashes are distinct |
| `Ctap2.Authenticator.HandleClientPin` | src/ctap2.rs:788-904 | what each sub-command answers and the PIN, key agreement and token it leaves |
| `Ctap2.Authenticator.HandleSetPin` | src/ctap2.rs:1088-1117 | sets the PIN if and only if none is set, the exchange is valid, the PIN acceptable and the write succeeds; what the new PIN then passes is `Ctap2Exchanges.SetThenToken` |
| `Ctap2.Authenticator.HandleChangePin` | src/ctap2.rs:1119-1159 | changes the PIN if and only if the old one is right, not blocked, and all else holds; a wrong one costs one retry; every comparison, also of a refused change, leaves one event |
| `Ctap2.Authenticator.HandlePinToken` | src/ctap2.rs:1161-1195 | grants a token if and only if the scope is valid and the PIN right and not blocked; a wrong PIN costs one retry; every comparison leaves one event |
| `Ctap2.Authenticator.HandleUvToken` | src/ctap2.rs:1197-1233 | grants a token if and only if the scope is valid and the user approved |
| `Ctap2.Authenticator.AuthenticatePin` | src/ctap2.rs:1250-1280 | one comparison: retries drop by one or return to eight, which error results, and nothing happens when blocked |
| `Ctap2.Authenticator.AdoptPin` | src/ctap2.rs:1105-1116 | the new state, eight retries and the verifier of the left half of the PIN's hash, is adopted only once it is persisted |
| `Ctap2.Authenticator.HandleReset` | src/ctap2.rs:331-348 | on approval clears PIN, token, cursors and cache, and the row of every cached credential whose deletion succeeds; otherwise changes nothing |
| `Ctap2.Authenticator.CancelPending` | src/ctap2.rs:321-326 | drops the pending assertion, enumeration, token and key agreement |
| `Ctap2.Authenticator.StorePolicy` | src/ctap2.rs:1447-1473 | a management policy write keeps the authenticator's invariant |
| `Ctap2.Authenticator.StoreRecovery` | src/ctap2.rs:1474-1495 | a management recovery write keeps the authenticator's invariant |
| `Canonical.SortIsStableSort` | src/ctap2.rs:2198-2213 | the entries are ordered by encoded key, and entries of one key keep their order |
| `Canonical.StableSortUnique` | src/ctap2.rs:2198-2213 | there is only one such order |
| `Canonical.CanonicalizeIdempotent` | src/ctap2.rs:2198-2213 | canonicalizing twice is canonicalizing once |
| `Canonical.CanonicalExactlyUpToOrder` | src/ctap2.rs:2198-2213 | two values have one canonical form if and only if they differ by entry order at any depth |
| `Canonical.LookupCommutes` | src/ctap2.rs:1622-1625 | lookup in a canonicalized map is the canonicalized lookup, duplicate keys included |
| `Canonical.AuthMessageExactly` | src/ctap2.rs:2221-2228 | two authenticated messages are equal if and only if the low bytes of the sub-commands agree and the parameters agree up to order |
| `Canonical.AuthMessageReads` | src/ctap2.rs:2221-2228 | the authenticated message is the low byte of the sub-command and then, if there are parameters, exactly one item that reads as their canonical map |
| `Cbor.DecodeEncode` | src/ctap2.rs:2215-2219 | an independent reader gives back every encoded value and what follows it |
| `Cbor.KeyOrderIsCanonical` | src/ctap2.rs:2215-2219 | the byte order of encoded keys is the CTAP canonical order on integer, byte and text keys |
| `Cbor.EncodeIsPrefixFree` | src/ctap2.rs:2215-2219 | no encoding is a prefix of another's, so equal bytes mean equal values |
| `TpmPolicy.Tpm.SignDigestWithPolicy` | src/tpm.rs:557-766 | signs if and only if the digest has 32 bytes and the policy passes; every handle is returned on success and on failure at any command, except one per failed flush |
| `TpmPolicy.Tpm.SignWithAuthority` | src/tpm.rs:599-704 | the PolicyAuthorize path passes if and only if no command fails, slots suffice, no PCR is extended inside the session, and the stored signature approves the current PCR values |
| `TpmPolicy.Tpm.AuthorizeAndSign` | src/tpm.rs:643-704 | from an approved digest the command sequence signs exactly for the key's fixed policy |
| `TpmPolicy.Tpm.SignWithPcrPolicy` | src/tpm.rs:705-745 | the plain PCR path passes if and only if the key's policy is that of the current PCR values |
| `TpmPolicy.Tpm.CreateCredentialKey` | src/tpm.rs:233-268 | the key carries the policy's digest as its fixed policy; handle-neutral |
| `TpmPolicy.Tpm.CreateSecureBootPolicy` | src/tpm.rs:270-306 | the digest is that of the PCR values read first; handle-neutral on success |
| `TpmPolicy.Tpm.SignRecoveryPolicy` | src/tpm.rs:315-357 | the authority signs exactly the approved digest with the policyRef; handle-neutral on success |
| `TpmPolicy.Tpm.CreateAuthorizedPolicy` | src/tpm.rs:359-441 | the final digest depends only on authority name and policyRef; handle-neutral on success |
| `TpmPolicy.Tpm.UpdateAuthorizedPolicy` | src/tpm.rs:443-551 | the final digest depends only on authority name and policyRef while the signature approves the PCR values just read under the configured selection; handle-neutral on success |
| `TpmPolicy.Tpm.ChangeKeyAuth` | src/tpm.rs:768-807 | the public area, hence the name, is unchanged; handle-neutral on success |
| `TpmLifecycle.Register` | src/ctap2.rs:457-494 | succeeds exactly when no command fails and slots suffice; the key's fixed policy is then the stored digest, approved for the PCR values read during the call |
| `TpmLifecycle.UpdateStep` | src/ctap2.rs:1447-1473 | succeeds exactly when no command fails and slots suffice; key, recovery key and digest stay, and the approval moves to now, else nothing changes |
| `TpmLifecycle.PassphraseStep` | src/ctap2.rs:1474-1495 | succeeds exactly when no command fails and slots suffice; key, policy and the authority's name stay |
| `TpmLifecycle.Live` | src/tpm.rs:359-807 | over any sequence of assertions, updates and passphrase changes the stored digest stays the key's fixed policy; each assertion returns a signature exactly when the PCRs are as approved, and the approval moves only at a successful update, to its first command |
| `TpmLifecycle.PassesExactly` | src/tpm.rs:557-704 | for consistent keys the policy passes if and only if the selected PCRs equal the approved ones when read and when checked, and none is extended until the signature |
| `TpmLifecycle.PassesWhenQuiet` | src/tpm.rs:599-642 | without extensions during the call: passes if and only if at most eight PCRs are selected and they equal the approved ones |
| `TpmLifecycle.AssertStep` | src/tpm.rs:557-704 | the signature itself: returned exactly when the policy passes for the approval in force, with handles accounted for |
| `TpmModel.BitmapIsExact` | src/tpm.rs:921-931 | the selection built from a list of indexes holds each of them once, in increasing order |
| `TpmLifecycle.ExtensionsBlockExactly` | src/tpm.rs:599-704 | an assertion passes if and only if nothing fails, slots suffice, at most eight PCRs are selected, none of them was extended since the approval, and none at all between PolicyPCR and the signature |
| `TpmLifecycle.AssertMany` | src/tpm.rs:119-146 | any number of assertions, each signing exactly when its policy passes when it starts, leaks exactly the handles of failed flushes, hence finds the same slots without them |
| `Der.EncodeInteger` | src/tpm.rs:995-1014 | the buffer-building code computes the minimal DER integer |
| `Der.EncodeSignature` | src/tpm.rs:984-993 | the buffer-building code computes the DER sequence of the two integers |
| `Der.SignatureRoundTrip` | src/tpm.rs:984-1014 | for components up to 60 bytes the strict short-form reader gives back both values; 32-byte components give at most 72 bytes |
| `Der.SignatureRoundTripExactly` | src/tpm.rs:984-993 | readable if and only if the content is at most 127 bytes |
| `Der.IntegersEqualExactly` | src/tpm.rs:995-1014 | two DER integers are equal if and only if the values are |
| `Der.SignaturesEqualExactly` | src/tpm.rs:984-1014 | two signatures are equal if and only if both values are |
| `PcrSelection.SelectionRoundTripExactly` | src/management.rs:106-112 | a printed selection starts with `sha256:`, and parsing it gives back the list if and only if it is not empty |
| `Store.ComputeCredentialMac` | src/store.rs:942-963 | feeding the fields one by one computes the MAC of the framed message |
| `Store.MacCoversExactly` | src/store.rs:942-963 | two credentials have one MAC message if and only if they agree on the covered fields, absent names read as empty and an absent owner as 0 |
| `Store.LegacyMacCoversExactly` | src/store.rs:965-984 | the same for the legacy message, which leaves out discoverability |
| `Store.PinMacCoversExactly` | src/store.rs:986-994 | two PIN states have one MAC message if and only if they are equal |
| `Store.MacMessageReads` | src/store.rs:942-984 | the MAC message reads as id, relying party, discoverability byte, user handle, owner and both names in this order and nothing else; the legacy one lacks the byte |
| `Store.PinMacMessageReads` | src/store.rs:986-994 | the PIN MAC message reads as salt, verifier and retries in this order and nothing else |
| `Store.ConstantTimeEqual` | src/store.rs:996-1003 | the accumulating loop decides equality |
| `Database.CredentialStore.Save` | src/store.rs:555-657 | succeeds exactly for distinct ids without a fault, and then the table is exactly the list with fresh MACs |
| `Database.CredentialStore.Load` | src/store.rs:417-553 | on any table, succeeds exactly when no visible row's MAC, current or legacy, is refused, and lists the visible rows, each once, by relying party and id |
| `Database.ListsUnique` | src/store.rs:417-553 | there is only one such listing |
| `Database.LoadAfterSave` | src/store.rs:417-657 | an unfiltered listing after a save holds exactly the saved credentials, sorted |
| `Database.SaveThenLoad` | src/store.rs:417-657 | a save of distinct ids is followed by a load that succeeds and returns exactly them, sorted |
| `Database.MacAcceptedExactly` | src/store.rs:493-548 | a row that passes for its own owner is accepted by a load if and only if the load does not change its owner |
| `Database.CredentialStore.UpdateSignCount` | src/store.rs:659-685 | changes only the target's count, and succeeds exactly when the row exists |
| `Database.CredentialStore.UpdatePolicy` | src/store.rs:687-718 | changes only the target's policy columns, to the given policy (`Database.PolicyReadsBack`), and keeps every MAC valid |
| `Database.CredentialStore.UpdateRecovery` | src/store.rs:720-795 | changes only the target's recovery secrets, to the given ones (`Database.RecoveryReadsBack`), and keeps every MAC valid |
| `Database.PolicyReadsBack` | src/store.rs:687-718 | a row with a new policy reads back that policy, every member but the version, which stays the row's, and is otherwise the same credential |
| `Database.RecoveryReadsBack` | src/store.rs:720-795 | a row with a new recovery secret reads back its private blob, salt, hash and parameters, and is otherwise the same credential |
| `Database.ListsOwnRows` | src/store.rs:417-553 | a listing holds a row if and only if the reader has no uid, owns it, or nobody does; an ownerless one is given to the reader |
| `Database.TamperingExactly` | src/store.rs:493-548 | under the current or the legacy MAC of other data of the same message length a credential is accepted if and only if every bound field is the same; never under another key, always without a MAC |
| `Database.CredentialStore.Delete` | src/store.rs:797-813 | removes only the target row |
| `Database.ApplyUpdates` | src/store.rs:659-813 | any sequence of updates changes only its targets and leaves every surviving MAC as acceptable to every reader as before |
| `Database.CredentialStore.SavePin` | src/store.rs:852-880 | stores the state with its MAC, or leaves the old one |
| `Database.CredentialStore.LoadPin` | src/store.rs:815-850 | on any stored state, succeeds exactly when its MAC, where it has one, verifies |
| `Database.CredentialStore.DeletePin` | src/store.rs:882-889 | removes the stored state |
| `Management.UpdatePcrReference` | src/management.rs:354-522 | reports if and only if the listing succeeds; one report per visible credential in load order; "ok" exactly for those with policy, recovery slot, policyRef, authority name, matching passphrase and TPM and store success; only those rows change, only in their policy columns |
| `Management.RenewThenLoad` | src/management.rs:354-522 | a load after a renewal lists the same credentials in the same order, those reported "ok" with exactly the renewed policy and the others as they were |
| `Management.ChangeThenLoad` | src/management.rs:178-353 | a load after a passphrase change lists the same credentials in the same order, those reported "ok" with exactly the new recovery secrets and the others as they were |
| `Management.RenewOne` | src/management.rs:371-516 | the report explains the outcome of one credential |
| `Management.Daemon.UpdatePassphrase` | src/management.rs:178-353 | the daemon passphrase changes exactly when authorized and storable; reports if and only if the listing then succeeds too; one report per visible credential, "ok" exactly where the recovery slot was rekeyed, all else unchanged |
| `Management.FailedListingChangesPassphrase` | src/management.rs:256-267 | an input for which the change is made and reported as failed |
| `Management.RekeyedUnlocks` | src/store.rs:720-795 | a rekeyed slot opens for exactly the passphrases deriving the new hash; any other opens as before |
| `Management.ChangeThenRenew` | src/management.rs:178-522 | both batches report exactly when their listing of the original table succeeds, and a renewal with the new passphrase refuses no credential the change reported as updated |

## Left out

- UHID, the Unix socket, polkit, logind, prompts and the command line: session checks and approval are booleans of `Env`.
- SHA-256, PBKDF2 and Argon2 are arbitrary functions; HMAC tags, TPM digests and signatures are symbolic values.
- ECDH and AES of PIN protocol 2: whether a key agreement key, an encrypted PIN and its MAC are valid is part of the request.
- CBOR decoding of requests: they start as decoded values, with parameters as `Cbor.Value` maps; floats, tags, simple values and big integers are not values of the model.
- The encoding of responses, attestation and authenticator data: responses are datatypes holding the fields that properties speak about.
- SQLite, migrations and PHC strings: the store is an atomic map, and a failed transaction changes nothing.
- The TPM of `Ctap2` is one success flag per command; its inner behaviour is modelled in `TpmPolicy`, and the two are not composed.
- Selected indexes are below 24, the PCRs of the modelled bank.
- `Authenticator` starts on a PIN state written by `SavePin`; loading one with a missing MAC is modelled in `Database` only.
- A TPM reset is not modelled: the PCR bank only grows by extensions.
- `bio_enrollment`, `large_blobs` and `config` have no behaviour in the source.
- `update_pcr_policy_for_credential` and `change_recovery_passphrase`, the paths without a daemon, would repeat the batch members.
- `handle_update_pcr_policy`, `check_pcr_stale`, getInfo's contents and the option validators are single-branch facts.
- Concurrency of the management thread: each of its TPM commands runs on the main thread, so it is one operation of a run.
- Database.LoadAfterSave: covers saved credentials of policy version 1, the only version the save writes.
