/**
 The batch operations of the management socket. Both walk the credentials
 visible to the peer, issue one TPM command per credential and write its
 result to that credential's row. The key derivation function, the TPM's
 answers and the failures of the database are parameters.
 */
module Management {
  import opened Bytes
  import opened Store
  import opened Database

  type Kdf = (RecoveryKdf, Bytes, Bytes) -> Option<Bytes>

  /** The answer to the policy update of call `n` for an authority, its name and a policyRef. */
  type PolicyUpdates = (nat, StoredTpmKey, Bytes, Bytes) -> Option<StoredPcrPolicy>

  /** The new private area from the authorization change of call `n` for a key and a new value. */
  type AuthChanges = (nat, StoredTpmKey, Bytes) -> Option<Bytes>

  datatype Reason =
    NoPolicy | NoRecoverySlot | NoPolicyRef | NoAuthorityName | PassphraseMismatch | KdfError | CommandError

  datatype Status = Updated | Skipped(reason: Reason) | Failed(error: Reason)

  datatype Report = Report(id: Bytes, status: Status)

  /** Root sees every user's credentials. */
  function FilterUid(uid: u32): Option<u32> {
    if uid == 0 then None else Some(uid)
  }

  // ------------------------------------------------------- walking a listing

  ghost predicate ListedBefore(listed: seq<StoredCredential>, n: nat, id: Bytes) {
    exists k :: 0 <= k < n && k < |listed| && listed[k].id == id
  }

  /** The first rows of a listing now hold `now`; every other row is as before. */
  ghost predicate Replaced(before: Rows, after: Rows, listed: seq<StoredCredential>, now: seq<Row>) {
    && |now| <= |listed|
    && after.Keys == before.Keys
    && (forall k :: 0 <= k < |now| ==> listed[k].id in after && after[listed[k].id] == now[k])
    && (forall id :: id in before && !ListedBefore(listed, |now|, id) ==> after[id] == before[id])
  }

  lemma ListedIdsAreDistinct(listed: seq<StoredCredential>, rows: Rows, ids: set<Bytes>, uid: Option<u32>, i: nat, j: nat)
    requires Lists(listed, rows, ids, uid) && i < j < |listed|
    ensures listed[i].id != listed[j].id
  {
    BeforeIrreflexive(listed[i]);
    assert Before(listed[i], listed[j]);
  }

  lemma ListedRow(listed: seq<StoredCredential>, rows: Rows, ids: set<Bytes>, uid: Option<u32>, n: nat)
    requires Lists(listed, rows, ids, uid) && n < |listed|
    ensures listed[n].id in rows && listed[n] == FromRow(listed[n].id, rows[listed[n].id], uid)
  {
  }

  lemma NothingReplaced(rows: Rows, listed: seq<StoredCredential>)
    ensures Replaced(rows, rows, listed, [])
  {
  }

  lemma ReplaceNext(before: Rows, mid: Rows, listed: seq<StoredCredential>, ids: set<Bytes>, uid: Option<u32>,
                    now: seq<Row>, row: Row)
    requires Lists(listed, before, ids, uid) && Replaced(before, mid, listed, now) && |now| < |listed|
    ensures var id := listed[|now|].id;
            && id in mid && id in before && mid[id] == before[id]
            && Replaced(before, mid[id := row], listed, now + [row])
  {
    var n := |now|;
    assert listed[n].id in before;
    forall k | 0 <= k < n
      ensures listed[k].id != listed[n].id
    {
      ListedIdsAreDistinct(listed, before, ids, uid, k, n);
    }
    hide Lists;
    ReplaceFresh(before, mid, listed, now, row);
  }

  lemma ReplaceFresh(before: Rows, mid: Rows, listed: seq<StoredCredential>, now: seq<Row>, row: Row)
    requires Replaced(before, mid, listed, now) && |now| < |listed| && listed[|now|].id in before
    requires forall k :: 0 <= k < |now| ==> listed[k].id != listed[|now|].id
    ensures var id := listed[|now|].id;
            mid[id] == before[id] && Replaced(before, mid[id := row], listed, now + [row])
  {
    var n := |now|;
    var id := listed[n].id;
    var after, next := mid[id := row], now + [row];
    assert after.Keys == before.Keys;
    assert !ListedBefore(listed, n, id);
    forall other | other in before && !ListedBefore(listed, |next|, other)
      ensures after[other] == before[other]
    {
      assert 0 <= n < |next| && listed[n].id == id;
      assert !ListedBefore(listed, n, other);
    }
  }

  /** A relation that every replacement respects holds between all rows and their successors. */
  lemma ReplacedKeeps(before: Rows, after: Rows, listed: seq<StoredCredential>, now: seq<Row>, same: (Row, Row) -> bool)
    requires Replaced(before, after, listed, now)
    requires forall row :: same(row, row)
    requires forall k :: 0 <= k < |now| ==> listed[k].id in before && same(before[listed[k].id], now[k])
    ensures after.Keys == before.Keys
    ensures forall id :: id in before ==> same(before[id], after[id])
  {
    forall id | id in before
      ensures id in after && same(before[id], after[id])
    {
      if ListedBefore(listed, |now|, id) {
        var k :| 0 <= k < |now| && k < |listed| && listed[k].id == id;
      }
    }
  }

  /** The rows differ at most in the policy columns. */
  predicate SameButPolicy(row: Row, next: Row) {
    && next.meta == row.meta && next.recovery == row.recovery && next.primary.tpmKey == row.primary.tpmKey
    && next.primary.publicKey == row.primary.publicKey && next.primary.policyVersion == row.primary.policyVersion
  }

  /** The rows differ at most in the secrets of the recovery slot. */
  predicate SameButRecovery(row: Row, next: Row) {
    && next.meta == row.meta && next.primary == row.primary && (next.recovery.Some? <==> row.recovery.Some?)
    && (row.recovery.Some? ==>
          && next.recovery.value.slotLabel == row.recovery.value.slotLabel
          && next.recovery.value.publicKey == row.recovery.value.publicKey
          && next.recovery.value.tpmKey.public == row.recovery.value.tpmKey.public)
  }

  // ------------------------------------------- refreshing the PCR references

  /** A credential whose approved PCR values can be renewed with this passphrase. */
  predicate Eligible(c: StoredCredential, passphrase: Bytes, kdf: Kdf) {
    && c.policy.Some? && c.policy.value.policyRef.Some? && c.policy.value.authorityName.Some?
    && Unlocks(c, passphrase, kdf)
  }

  /** The passphrase opens the credential's recovery slot. */
  predicate Unlocks(c: StoredCredential, passphrase: Bytes, kdf: Kdf) {
    && c.recovery.Some?
    && kdf(c.recovery.value.kdf, c.recovery.value.passphraseSalt, passphrase) == Some(c.recovery.value.passphraseHash)
  }

  /** What the TPM answers when call `n` renews an eligible credential. */
  function Renewal(c: StoredCredential, tpm: PolicyUpdates, n: nat): Option<StoredPcrPolicy>
    requires c.policy.Some? && c.policy.value.policyRef.Some? && c.policy.value.authorityName.Some? && c.recovery.Some?
  {
    tpm(n, c.recovery.value.key, c.policy.value.authorityName.value, c.policy.value.policyRef.value)
  }

  /** Call `n` renews the credential's policy. */
  predicate Renews(c: StoredCredential, passphrase: Bytes, kdf: Kdf, tpm: PolicyUpdates, n: nat, faults: nat -> bool) {
    Eligible(c, passphrase, kdf) && Renewal(c, tpm, n).Some? && !faults(n)
  }

  /** The row that call `n` leaves. */
  function RenewedRow(row: Row, c: StoredCredential, passphrase: Bytes, kdf: Kdf, tpm: PolicyUpdates, n: nat,
                      faults: nat -> bool): Row
  {
    if Renews(c, passphrase, kdf, tpm, n, faults) then WithPolicy(row, Renewal(c, tpm, n).value) else row
  }

  lemma RenewedKeeps(row: Row, c: StoredCredential, passphrase: Bytes, kdf: Kdf, tpm: PolicyUpdates, n: nat,
                     faults: nat -> bool)
    ensures SameButPolicy(row, RenewedRow(row, c, passphrase, kdf, tpm, n, faults))
  {
  }

  /** The status of a credential tells why it was or was not renewed. */
  ghost predicate Explains(status: Status, c: StoredCredential, passphrase: Bytes, kdf: Kdf, tpm: PolicyUpdates, n: nat,
                           faults: nat -> bool)
  {
    && (status.Updated? <==> Renews(c, passphrase, kdf, tpm, n, faults))
    && (status == Skipped(NoPolicy) <==> c.policy.None?)
    && (status.Skipped? <==> c.policy.None? || c.recovery.None?)
    && (status == Failed(PassphraseMismatch) || status == Failed(KdfError) <==>
          && c.policy.Some? && c.policy.value.policyRef.Some? && c.policy.value.authorityName.Some?
          && c.recovery.Some? && !Unlocks(c, passphrase, kdf))
    && (status == Failed(CommandError) <==>
          Eligible(c, passphrase, kdf) && !Renews(c, passphrase, kdf, tpm, n, faults))
  }

  method RenewOne(store: CredentialStore, c: StoredCredential, passphrase: Bytes, kdf: Kdf, tpm: PolicyUpdates, n: nat,
                  faults: nat -> bool) returns (status: Status)
    requires c.id in store.rows
    modifies store`rows
    ensures store.rows == old(store.rows)[c.id := RenewedRow(old(store.rows)[c.id], c, passphrase, kdf, tpm, n, faults)]
    ensures Explains(status, c, passphrase, kdf, tpm, n, faults)
  {
    if c.policy.None? {
      return Skipped(NoPolicy);
    }
    if c.recovery.None? {
      return Skipped(NoRecoverySlot);
    }
    var policy, recovery := c.policy.value, c.recovery.value;
    if policy.policyRef.None? {
      return Failed(NoPolicyRef);
    }
    if policy.authorityName.None? {
      return Failed(NoAuthorityName);
    }
    var hash := kdf(recovery.kdf, recovery.passphraseSalt, passphrase);
    if hash.None? {
      return Failed(KdfError);
    }
    if hash.value != recovery.passphraseHash {
      return Failed(PassphraseMismatch);
    }
    var renewal := tpm(n, recovery.key, policy.authorityName.value, policy.policyRef.value);
    if renewal.None? {
      return Failed(CommandError);
    }
    var ok := store.UpdatePolicy(c.id, renewal.value, faults(n));
    status := if ok then Updated else Failed(CommandError);
  }

  /** Renews the PCR references of all credentials visible to the peer. One report per
      credential, in the order of the load; a row changes exactly when its report says
      so, and then only in its policy columns. */
  method UpdatePcrReference(store: CredentialStore, uid: u32, passphrase: Bytes, kdf: Kdf, tpm: PolicyUpdates,
                            keyReadable: bool, loadFault: bool, faults: nat -> bool)
    returns (reports: Option<seq<Report>>, ghost listed: seq<StoredCredential>, ghost now: seq<Row>)
    modifies store`rows
    ensures store.rows.Keys == old(store.rows).Keys
    ensures forall id :: id in old(store.rows) ==> SameButPolicy(old(store.rows)[id], store.rows[id])
    ensures reports.Some? <==> CanLoad(old(store.rows), FilterUid(uid), store.hmacKey, keyReadable, loadFault)
    ensures reports.None? ==> store.rows == old(store.rows)
    ensures reports.Some? ==>
              && Lists(listed, old(store.rows), VisibleIds(old(store.rows), FilterUid(uid)), FilterUid(uid))
              && |reports.value| == |listed| == |now|
              && Replaced(old(store.rows), store.rows, listed, now)
              && forall i :: 0 <= i < |listed| ==>
                   && listed[i].id in old(store.rows)
                   && now[i] == RenewedRow(old(store.rows)[listed[i].id], listed[i], passphrase, kdf, tpm, i, faults)
                   && reports.value[i].id == listed[i].id
                   && Explains(reports.value[i].status, listed[i], passphrase, kdf, tpm, i, faults)
  {
    hide Explains, RenewedRow, Replaced, Lists, CanLoad;
    listed, now := [], [];
    var loaded := store.Load(FilterUid(uid), keyReadable, loadFault);
    if loaded.None? {
      return None, [], [];
    }
    listed := loaded.value;
    var results;
    results, now := RenewAll(store, loaded.value, FilterUid(uid), passphrase, kdf, tpm, faults);
    forall k | 0 <= k < |now|
      ensures SameButPolicy(old(store.rows)[listed[k].id], now[k])
    {
      RenewedKeeps(old(store.rows)[listed[k].id], listed[k], passphrase, kdf, tpm, k, faults);
    }
    ReplacedKeeps(old(store.rows), store.rows, listed, now, SameButPolicy);
    reports := Some(results);
  }

  method RenewAll(store: CredentialStore, listed: seq<StoredCredential>, ghost uid: Option<u32>, passphrase: Bytes,
                  kdf: Kdf, tpm: PolicyUpdates, faults: nat -> bool)
    returns (results: seq<Report>, ghost now: seq<Row>)
    requires Lists(listed, store.rows, VisibleIds(store.rows, uid), uid)
    modifies store`rows
    ensures |results| == |listed| == |now| && Replaced(old(store.rows), store.rows, listed, now)
    ensures forall i :: 0 <= i < |listed| ==>
              && listed[i].id in old(store.rows)
              && now[i] == RenewedRow(old(store.rows)[listed[i].id], listed[i], passphrase, kdf, tpm, i, faults)
              && results[i].id == listed[i].id
              && Explains(results[i].status, listed[i], passphrase, kdf, tpm, i, faults)
  {
    hide Explains, RenewedRow, Replaced, Lists;
    results, now := [], [];
    ghost var before := store.rows;
    ghost var ids := VisibleIds(store.rows, uid);
    NothingReplaced(before, listed);
    for n := 0 to |listed|
      invariant |results| == |now| == n && Replaced(before, store.rows, listed, now)
      invariant forall i :: 0 <= i < n ==>
                  && listed[i].id in before
                  && now[i] == RenewedRow(before[listed[i].id], listed[i], passphrase, kdf, tpm, i, faults)
                  && results[i].id == listed[i].id
                  && Explains(results[i].status, listed[i], passphrase, kdf, tpm, i, faults)
    {
      var c := listed[n];
      ListedRow(listed, before, ids, uid, n);
      ghost var row := RenewedRow(before[c.id], c, passphrase, kdf, tpm, n, faults);
      ReplaceNext(before, store.rows, listed, ids, uid, now, row);
      var status := RenewOne(store, c, passphrase, kdf, tpm, n, faults);
      results := results + [Report(c.id, status)];
      now := now + [row];
    }
  }

  /** The listing of a table whose listed rows were replaced without changing identities: the
      same credentials in the same order, each read from its new row. */
  lemma ReplacedListing(before: Rows, after: Rows, listed: seq<StoredCredential>, now: seq<Row>, uid: Option<u32>,
                        again: seq<StoredCredential>)
    requires Lists(listed, before, VisibleIds(before, uid), uid) && Replaced(before, after, listed, now)
    requires |now| == |listed|
    requires forall k :: 0 <= k < |now| ==> listed[k].id in before && SameIdentity(before[listed[k].id], now[k])
    requires Lists(again, after, VisibleIds(after, uid), uid)
    ensures |again| == |listed|
    ensures forall k :: 0 <= k < |again| ==>
              again[k] == FromRow(listed[k].id, now[k], uid)
  {
    var expected := seq(|listed|, k requires 0 <= k < |listed| => FromRow(listed[k].id, now[k], uid));
    ExpectedLists(before, after, listed, now, uid, expected);
    hide Lists, Replaced, SameIdentity;
    ListsUnique(again, expected, after, VisibleIds(after, uid), uid);
  }

  lemma ExpectedLists(before: Rows, after: Rows, listed: seq<StoredCredential>, now: seq<Row>, uid: Option<u32>,
                      expected: seq<StoredCredential>)
    requires Lists(listed, before, VisibleIds(before, uid), uid) && Replaced(before, after, listed, now)
    requires |now| == |listed| == |expected|
    requires forall k :: 0 <= k < |now| ==> listed[k].id in before && SameIdentity(before[listed[k].id], now[k])
    requires forall k :: 0 <= k < |now| ==> expected[k] == FromRow(listed[k].id, now[k], uid)
    ensures Lists(expected, after, VisibleIds(after, uid), uid)
  {
    hide FromRow, SameIdentity, Replaced, VisibleIds, Visible, Before;
    forall k | 0 <= k < |listed|
      ensures expected[k].id == listed[k].id && expected[k].rpId == listed[k].rpId
      ensures expected[k].id in VisibleIds(after, uid) && expected[k].id in after
      ensures expected[k] == FromRow(expected[k].id, after[expected[k].id], uid)
    {
      ExpectedAt(before, after, listed, now, uid, k);
    }
    forall id | id in VisibleIds(after, uid)
      ensures HasId(expected, id)
    {
      ListedIfVisible(before, after, listed, now, uid, id);
      var k :| 0 <= k < |now| && k < |listed| && listed[k].id == id;
      assert expected[k].id == id;
    }
    forall i, j | 0 <= i < j < |expected|
      ensures Before(expected[i], expected[j])
    {
      assert Before(listed[i], listed[j]);
      BeforeAlike(listed[i], listed[j], expected[i], expected[j]);
    }
  }

  lemma BeforeAlike(a: StoredCredential, b: StoredCredential, a': StoredCredential, b': StoredCredential)
    requires Before(a, b) && a.id == a'.id && a.rpId == a'.rpId && b.id == b'.id && b.rpId == b'.rpId
    ensures Before(a', b')
  {
  }

  lemma ExpectedAt(before: Rows, after: Rows, listed: seq<StoredCredential>, now: seq<Row>, uid: Option<u32>, k: nat)
    requires Lists(listed, before, VisibleIds(before, uid), uid) && Replaced(before, after, listed, now)
    requires k < |now| == |listed| && listed[k].id in before && SameIdentity(before[listed[k].id], now[k])
    ensures var c, id := FromRow(listed[k].id, now[k], uid), listed[k].id;
            c.id == id && c.rpId == listed[k].rpId && id in VisibleIds(after, uid) && id in after && after[id] == now[k]
  {
    SameIdentityShows(listed[k].id, before[listed[k].id], now[k], uid);
    ListedRow(listed, before, VisibleIds(before, uid), uid, k);
    hide FromRow, SameIdentity, Before, HasId, Visible;
    assert listed[k].id in VisibleIds(before, uid);
  }

  lemma SameIdentityShows(id: Bytes, row: Row, next: Row, uid: Option<u32>)
    requires SameIdentity(row, next)
    ensures var c, d := FromRow(id, row, uid), FromRow(id, next, uid);
            d.id == id && d.rpId == c.rpId && (Visible(row, uid) <==> Visible(next, uid))
  {
  }

  lemma ListedIfVisible(before: Rows, after: Rows, listed: seq<StoredCredential>, now: seq<Row>, uid: Option<u32>, id: Bytes)
    requires Lists(listed, before, VisibleIds(before, uid), uid) && Replaced(before, after, listed, now)
    requires |now| == |listed| && id in VisibleIds(after, uid)
    ensures ListedBefore(listed, |now|, id)
  {
    hide FromRow, Before, Visible;
    assert ListedBefore(listed, |now|, id) || (id in before && after[id] == before[id]);
    assert ListedBefore(listed, |now|, id) || id in VisibleIds(before, uid);
    assert HasId(listed, id) ==> ListedBefore(listed, |now|, id);
  }

  /** The credential that a renewal leaves: for a report of success exactly the package that
      the TPM answered, version aside, else the old one. */
  ghost predicate Renewed(report: Report, was: StoredCredential, again: StoredCredential, tpm: PolicyUpdates, n: nat) {
    if report.status.Updated? then
      && was.policy.Some? && was.policy.value.policyRef.Some? && was.policy.value.authorityName.Some?
      && was.recovery.Some?
      && var answer := tpm(n, was.recovery.value.key, was.policy.value.authorityName.value,
                           was.policy.value.policyRef.value);
      && answer.Some?
      && again == was.(policy := Some(StoredPcrPolicy(
                         answer.value.selection, answer.value.digest, answer.value.policyRef, answer.value.authorityName,
                         answer.value.authoritySignature, was.policy.value.policyVersion)))
    else again == was
  }

  /** A renewal and then a load by the same peer. The reports cover exactly the peer's own and
      the ownerless credentials, or all for root, and the load shows what the reports say. */
  method RenewThenLoad(store: CredentialStore, uid: u32, passphrase: Bytes, kdf: Kdf, tpm: PolicyUpdates,
                       keyReadable: bool, loadFault: bool, faults: nat -> bool)
    returns (reports: Option<seq<Report>>, again: Option<seq<StoredCredential>>, ghost listed: seq<StoredCredential>)
    modifies store`rows
    ensures reports.Some? <==> again.Some?
    ensures reports.Some? ==>
              && |reports.value| == |again.value| == |listed|
              && ShowsOwnRows(listed, old(store.rows), if uid == 0 then None else Some(uid))
              && forall i :: 0 <= i < |listed| ==>
                   && reports.value[i].id == again.value[i].id == listed[i].id
                   && Renewed(reports.value[i], listed[i], again.value[i], tpm, i)
  {
    hide Lists, Replaced, RenewedRow, CanLoad, Explains, SameButPolicy, Renewed, ShowsOwnRows;
    ghost var now, before := [], store.rows;
    reports, listed, now := UpdatePcrReference(store, uid, passphrase, kdf, tpm, keyReadable, loadFault, faults);
    PolicyKeepsIdentities(before, store.rows);
    SameIdentityCanLoad(before, store.rows, FilterUid(uid), store.hmacKey, keyReadable, loadFault);
    again := store.Load(FilterUid(uid), keyReadable, loadFault);
    if reports.Some? {
      ListsOwnRows(listed, before, FilterUid(uid));
      forall k | 0 <= k < |now|
        ensures SameIdentity(before[listed[k].id], now[k])
      {
        RenewedIdentity(before[listed[k].id], listed[k], passphrase, kdf, tpm, k, faults);
      }
      ReplacedListing(before, store.rows, listed, now, FilterUid(uid), again.value);
      forall i | 0 <= i < |listed|
        ensures again.value[i].id == listed[i].id && Renewed(reports.value[i], listed[i], again.value[i], tpm, i)
      {
        ListedRow(listed, before, VisibleIds(before, FilterUid(uid)), FilterUid(uid), i);
        RenewedShows(before[listed[i].id], listed[i], FilterUid(uid), passphrase, kdf, tpm, i, faults, reports.value[i]);
      }
    }
  }

  lemma PolicyKeepsIdentities(before: Rows, after: Rows)
    requires after.Keys == before.Keys && forall id :: id in before ==> SameButPolicy(before[id], after[id])
    ensures forall id :: id in before ==> SameIdentity(before[id], after[id])
  {
  }

  lemma RenewedIdentity(row: Row, c: StoredCredential, passphrase: Bytes, kdf: Kdf, tpm: PolicyUpdates, n: nat,
                        faults: nat -> bool)
    ensures SameIdentity(row, RenewedRow(row, c, passphrase, kdf, tpm, n, faults))
  {
  }

  lemma RenewedShows(row: Row, c: StoredCredential, uid: Option<u32>, passphrase: Bytes, kdf: Kdf, tpm: PolicyUpdates,
                     n: nat, faults: nat -> bool, report: Report)
    requires c == FromRow(c.id, row, uid) && Explains(report.status, c, passphrase, kdf, tpm, n, faults)
    ensures var again := FromRow(c.id, RenewedRow(row, c, passphrase, kdf, tpm, n, faults), uid);
            again.id == c.id && Renewed(report, c, again, tpm, n)
  {
    if Renews(c, passphrase, kdf, tpm, n, faults) {
      PolicyReadsBack(c.id, row, Renewal(c, tpm, n).value, uid);
    }
  }

  // ------------------------------------------------ changing the passphrase

  const DEFAULT_KDF := Argon2id(65536, 3, 1)

  datatype DaemonPassphrase = DaemonPassphrase(salt: Bytes, hash: Bytes, kdf: RecoveryKdf)

  /** The random salt and the failures of the database during one passphrase change. */
  datatype Circumstances = Circumstances(
    salt: Option<Bytes>, configFault: bool, saveFault: bool, keyReadable: bool, loadFault: bool, faults: nat -> bool)

  predicate Rekeys(c: StoredCredential, hash: Bytes, tpm: AuthChanges, n: nat, faults: nat -> bool) {
    c.recovery.Some? && tpm(n, c.recovery.value.key, hash).Some? && !faults(n)
  }

  function RekeyedRow(row: Row, c: StoredCredential, salt: Bytes, hash: Bytes, tpm: AuthChanges, n: nat,
                      faults: nat -> bool): Row
  {
    if row.recovery.Some? && Rekeys(c, hash, tpm, n, faults)
    then WithRecovery(row, tpm(n, c.recovery.value.key, hash).value, salt, hash, DEFAULT_KDF)
    else row
  }

  lemma RekeyedKeeps(row: Row, c: StoredCredential, salt: Bytes, hash: Bytes, tpm: AuthChanges, n: nat,
                     faults: nat -> bool)
    ensures SameButRecovery(row, RekeyedRow(row, c, salt, hash, tpm, n, faults))
  {
  }

  ghost predicate ExplainsRekey(status: Status, c: StoredCredential, hash: Bytes, tpm: AuthChanges, n: nat,
                                faults: nat -> bool)
  {
    && (status.Updated? <==> Rekeys(c, hash, tpm, n, faults))
    && (status == Skipped(NoRecoverySlot) <==> c.recovery.None?)
    && (status == Failed(CommandError) <==> c.recovery.Some? && !Rekeys(c, hash, tpm, n, faults))
  }

  method RekeyOne(store: CredentialStore, c: StoredCredential, salt: Bytes, hash: Bytes, tpm: AuthChanges, n: nat,
                  faults: nat -> bool) returns (status: Status)
    requires c.id in store.rows && (c.recovery.Some? <==> store.rows[c.id].recovery.Some?)
    modifies store`rows
    ensures store.rows == old(store.rows)[c.id := RekeyedRow(old(store.rows)[c.id], c, salt, hash, tpm, n, faults)]
    ensures ExplainsRekey(status, c, hash, tpm, n, faults)
  {
    if c.recovery.None? {
      return Skipped(NoRecoverySlot);
    }
    var private := tpm(n, c.recovery.value.key, hash);
    if private.None? {
      return Failed(CommandError);
    }
    var ok := store.UpdateRecovery(c.id, private.value, salt, hash, DEFAULT_KDF, faults(n));
    status := if ok then Updated else Failed(CommandError);
  }

  method RekeyAll(store: CredentialStore, listed: seq<StoredCredential>, ghost uid: Option<u32>, salt: Bytes,
                  hash: Bytes, tpm: AuthChanges, faults: nat -> bool)
    returns (results: seq<Report>, ghost now: seq<Row>)
    requires Lists(listed, store.rows, VisibleIds(store.rows, uid), uid)
    modifies store`rows
    ensures |results| == |listed| == |now| && Replaced(old(store.rows), store.rows, listed, now)
    ensures forall i :: 0 <= i < |listed| ==>
              && listed[i].id in old(store.rows)
              && now[i] == RekeyedRow(old(store.rows)[listed[i].id], listed[i], salt, hash, tpm, i, faults)
              && results[i].id == listed[i].id && ExplainsRekey(results[i].status, listed[i], hash, tpm, i, faults)
  {
    hide ExplainsRekey, RekeyedRow, Replaced, Lists;
    results, now := [], [];
    ghost var before := store.rows;
    ghost var ids := VisibleIds(store.rows, uid);
    NothingReplaced(before, listed);
    for n := 0 to |listed|
      invariant |results| == |now| == n && Replaced(before, store.rows, listed, now)
      invariant forall i :: 0 <= i < n ==>
                  && listed[i].id in before
                  && now[i] == RekeyedRow(before[listed[i].id], listed[i], salt, hash, tpm, i, faults)
                  && results[i].id == listed[i].id && ExplainsRekey(results[i].status, listed[i], hash, tpm, i, faults)
    {
      var c := listed[n];
      ListedRow(listed, before, ids, uid, n);
      ghost var row := RekeyedRow(before[c.id], c, salt, hash, tpm, n, faults);
      ReplaceNext(before, store.rows, listed, ids, uid, now, row);
      var status := RekeyOne(store, c, salt, hash, tpm, n, faults);
      results := results + [Report(c.id, status)];
      now := now + [row];
    }
  }

  class Daemon {
    const store: CredentialStore
    var passphrase: Option<DaemonPassphrase>

    constructor (store: CredentialStore)
      ensures this.store == store && passphrase == None
    {
      this.store := store;
      passphrase := None;
    }

    /** The change is authorized by the current passphrase, if one is set. */
    predicate Authorizes(current: Option<Bytes>, kdf: Kdf)
      reads this
    {
      passphrase.Some? ==>
        current.Some? && kdf(passphrase.value.kdf, passphrase.value.salt, current.value) == Some(passphrase.value.hash)
    }

    /** The new daemon passphrase is stored. */
    predicate Accepts(current: Option<Bytes>, replacement: Bytes, kdf: Kdf, env: Circumstances)
      reads this
    {
      && !env.configFault && Authorizes(current, kdf) && env.salt.Some?
      && kdf(DEFAULT_KDF, env.salt.value, replacement).Some? && !env.saveFault
    }

    /** Changes the daemon passphrase and then the recovery slot of every credential
        visible to the peer. A failed listing reports failure although the daemon
        passphrase has already changed. */
    method UpdatePassphrase(uid: u32, current: Option<Bytes>, replacement: Bytes, kdf: Kdf, tpm: AuthChanges,
                            env: Circumstances)
      returns (reports: Option<seq<Report>>, ghost listed: seq<StoredCredential>, ghost now: seq<Row>)
        modifies this, store`rows
        ensures old(Accepts(current, replacement, kdf, env)) ==>
                passphrase == Some(DaemonPassphrase(env.salt.value, kdf(DEFAULT_KDF, env.salt.value, replacement).value,
                                                    DEFAULT_KDF))
      ensures !old(Accepts(current, replacement, kdf, env)) ==> passphrase == old(passphrase)
      ensures reports.Some? <==>
                old(Accepts(current, replacement, kdf, env))
                && CanLoad(old(store.rows), FilterUid(uid), store.hmacKey, env.keyReadable, env.loadFault)
      ensures store.rows.Keys == old(store.rows).Keys
      ensures forall id :: id in old(store.rows) ==> SameButRecovery(old(store.rows)[id], store.rows[id])
      ensures reports.None? ==> store.rows == old(store.rows)
      ensures reports.Some? ==>
                var salt, hash := env.salt.value, kdf(DEFAULT_KDF, env.salt.value, replacement).value;
                && Lists(listed, old(store.rows), VisibleIds(old(store.rows), FilterUid(uid)), FilterUid(uid))
                && |reports.value| == |listed| == |now|
                && Replaced(old(store.rows), store.rows, listed, now)
                && forall i :: 0 <= i < |listed| ==>
                     && listed[i].id in old(store.rows)
                     && now[i] == RekeyedRow(old(store.rows)[listed[i].id], listed[i], salt, hash, tpm, i, env.faults)
                     && reports.value[i].id == listed[i].id
                     && ExplainsRekey(reports.value[i].status, listed[i], hash, tpm, i, env.faults)
    {
      hide ExplainsRekey, RekeyedRow, Replaced, Lists, CanLoad;
      reports, listed, now := None, [], [];
      if env.configFault {
        return;
      }
      if passphrase.Some? {
        if current.None? {
          return;
        }
        var computed := kdf(passphrase.value.kdf, passphrase.value.salt, current.value);
        if computed.None? || computed.value != passphrase.value.hash {
          return;
        }
      }
      if env.salt.None? {
        return;
      }
      var salt := env.salt.value;
      var hash := kdf(DEFAULT_KDF, salt, replacement);
      if hash.None? || env.saveFault {
        return;
      }
      passphrase := Some(DaemonPassphrase(salt, hash.value, DEFAULT_KDF));
      var loaded := store.Load(FilterUid(uid), env.keyReadable, env.loadFault);
      if loaded.None? {
        return;
      }
      listed := loaded.value;
      var results;
      results, now := RekeyAll(store, loaded.value, FilterUid(uid), salt, hash.value, tpm, env.faults);
      forall k | 0 <= k < |now|
        ensures SameButRecovery(old(store.rows)[listed[k].id], now[k])
      {
        RekeyedKeeps(old(store.rows)[listed[k].id], listed[k], salt, hash.value, tpm, k, env.faults);
      }
      ReplacedKeeps(old(store.rows), store.rows, listed, now, SameButRecovery);
      reports := Some(results);
    }
  }

  /** A rekeyed slot opens for exactly the passphrases that derive the new hash; any
      other slot opens as before. */
  lemma RekeyedUnlocks(id: Bytes, row: Row, uid: Option<u32>, u: Option<u32>, salt: Bytes, hash: Bytes, tpm: AuthChanges,
                       n: nat, faults: nat -> bool, passphrase: Bytes, kdf: Kdf)
    ensures var c := FromRow(id, row, uid);
            var renewed := FromRow(id, RekeyedRow(row, c, salt, hash, tpm, n, faults), u);
            Unlocks(renewed, passphrase, kdf) <==>
              if Rekeys(c, hash, tpm, n, faults) then kdf(DEFAULT_KDF, salt, passphrase) == Some(hash)
              else Unlocks(c, passphrase, kdf)
  {
  }

  /** The credential that a passphrase change leaves: for a report of success a recovery slot
      with the TPM's new private blob, the new auth value and the new salt, hash and Argon2id
      parameters, else the old one. */
  ghost predicate Rekeyed(report: Report, was: StoredCredential, again: StoredCredential, salt: Bytes, hash: Bytes,
                          tpm: AuthChanges, n: nat)
  {
    if report.status.Updated? then
      && was.recovery.Some?
      && var answer := tpm(n, was.recovery.value.key, hash);
      && answer.Some?
      && var key := was.recovery.value.key;
         again == was.(recovery := Some(StoredRecoverySlot(
                         was.recovery.value.slotLabel, salt, hash, Argon2id(65536, 3, 1),
                         StoredTpmKey(answer.value, key.public, key.publicKeyX, key.publicKeyY, Some(hash)))))
    else again == was
  }

  /** A passphrase change and then a load by the same peer shows what the reports say. */
  method ChangeThenLoad(d: Daemon, uid: u32, current: Option<Bytes>, replacement: Bytes, kdf: Kdf, tpm: AuthChanges,
                        env: Circumstances)
    returns (reports: Option<seq<Report>>, again: Option<seq<StoredCredential>>, ghost listed: seq<StoredCredential>)
    modifies d, d.store`rows
    ensures reports.Some? ==>
              && env.salt.Some? && kdf(Argon2id(65536, 3, 1), env.salt.value, replacement).Some? && again.Some?
              && |reports.value| == |again.value| == |listed|
              && ShowsOwnRows(listed, old(d.store.rows), if uid == 0 then None else Some(uid))
              && forall i :: 0 <= i < |listed| ==>
                   && reports.value[i].id == again.value[i].id == listed[i].id
                   && Rekeyed(reports.value[i], listed[i], again.value[i], env.salt.value,
                              kdf(Argon2id(65536, 3, 1), env.salt.value, replacement).value, tpm, i)
  {
    hide Lists, Replaced, RekeyedRow, CanLoad, ExplainsRekey, SameButRecovery, Rekeyed, ShowsOwnRows;
    ghost var now, before := [], d.store.rows;
    reports, listed, now := d.UpdatePassphrase(uid, current, replacement, kdf, tpm, env);
    RecoveryKeepsIdentities(before, d.store.rows);
    SameIdentityCanLoad(before, d.store.rows, FilterUid(uid), d.store.hmacKey, env.keyReadable, env.loadFault);
    again := d.store.Load(FilterUid(uid), env.keyReadable, env.loadFault);
    if reports.Some? {
      ghost var salt, hash := env.salt.value, kdf(DEFAULT_KDF, env.salt.value, replacement).value;
      ListsOwnRows(listed, before, FilterUid(uid));
      forall k | 0 <= k < |now|
        ensures SameIdentity(before[listed[k].id], now[k])
      {
        RekeyedIdentity(before[listed[k].id], listed[k], salt, hash, tpm, k, env.faults);
      }
      ReplacedListing(before, d.store.rows, listed, now, FilterUid(uid), again.value);
      forall i | 0 <= i < |listed|
        ensures again.value[i].id == listed[i].id && Rekeyed(reports.value[i], listed[i], again.value[i], salt, hash, tpm, i)
      {
        ListedRow(listed, before, VisibleIds(before, FilterUid(uid)), FilterUid(uid), i);
        RekeyedShows(before[listed[i].id], listed[i], FilterUid(uid), salt, hash, tpm, i, env.faults, reports.value[i]);
      }
    }
  }

  lemma RecoveryKeepsIdentities(before: Rows, after: Rows)
    requires after.Keys == before.Keys && forall id :: id in before ==> SameButRecovery(before[id], after[id])
    ensures forall id :: id in before ==> SameIdentity(before[id], after[id])
  {
  }

  lemma RekeyedIdentity(row: Row, c: StoredCredential, salt: Bytes, hash: Bytes, tpm: AuthChanges, n: nat,
                        faults: nat -> bool)
    ensures SameIdentity(row, RekeyedRow(row, c, salt, hash, tpm, n, faults))
  {
  }

  lemma RekeyedShows(row: Row, c: StoredCredential, uid: Option<u32>, salt: Bytes, hash: Bytes, tpm: AuthChanges,
                     n: nat, faults: nat -> bool, report: Report)
    requires c == FromRow(c.id, row, uid) && ExplainsRekey(report.status, c, hash, tpm, n, faults)
    ensures var again := FromRow(c.id, RekeyedRow(row, c, salt, hash, tpm, n, faults), uid);
            again.id == c.id && Rekeyed(report, c, again, salt, hash, tpm, n)
  {
    if Rekeys(c, hash, tpm, n, faults) {
      RecoveryReadsBack(c.id, row, tpm(n, c.recovery.value.key, hash).value, salt, hash, DEFAULT_KDF, uid);
    }
  }

  /** A daemon without a passphrase, and a listing that fails: the change is reported as
      failed and yet made. */
  method FailedListingChangesPassphrase() returns (failed: bool, changed: bool)
    ensures failed && changed
  {
    var store := new CredentialStore([]);
    var d := new Daemon(store);
    var kdf: Kdf := (k: RecoveryKdf, salt: Bytes, passphrase: Bytes) => Some(passphrase);
    var tpm: AuthChanges := (n: nat, key: StoredTpmKey, auth: Bytes) => None;
    var reports, _, _ := d.UpdatePassphrase(0, None, [1], kdf, tpm,
                                            Circumstances(Some([2]), false, false, false, true, (n: nat) => false));
    failed, changed := reports.None?, d.passphrase.Some?;
  }

  /** After a passphrase change, renewing PCR references with the new passphrase refuses
      no credential whose slot the change reported as updated. Both report exactly when
      their own listing succeeds, which the change does not affect. */
  method ChangeThenRenew(d: Daemon, uid: u32, current: Option<Bytes>, replacement: Bytes, kdf: Kdf, change: AuthChanges,
                         env: Circumstances, peer: u32, renew: PolicyUpdates, keyReadable: bool, loadFault: bool,
                         faults: nat -> bool)
    returns (changed: Option<seq<Report>>, renewed: Option<seq<Report>>)
    modifies d, d.store`rows
    ensures changed.Some? <==>
              old(d.Accepts(current, replacement, kdf, env))
              && CanLoad(old(d.store.rows), FilterUid(uid), d.store.hmacKey, env.keyReadable, env.loadFault)
    ensures renewed.Some? <==>
              CanLoad(old(d.store.rows), FilterUid(peer), d.store.hmacKey, keyReadable, loadFault)
    ensures changed.Some? && renewed.Some? ==>
              forall i, j :: 0 <= i < |changed.value| && 0 <= j < |renewed.value|
                             && renewed.value[j].id == changed.value[i].id && changed.value[i].status.Updated? ==>
                renewed.value[j].status !in {Failed(PassphraseMismatch), Failed(KdfError)}
  {
    hide RenewedRow, CanLoad;
    ghost var listed, now, again, later;
    ghost var before := d.store.rows;
    changed, listed, now := d.UpdatePassphrase(uid, current, replacement, kdf, change, env);
    ghost var mid := d.store.rows;
    SameIdentityCanLoad(before, mid, FilterUid(peer), d.store.hmacKey, keyReadable, loadFault);
    renewed, again, later := UpdatePcrReference(d.store, peer, replacement, kdf, renew, keyReadable, loadFault, faults);
    if changed.Some? && renewed.Some? {
      ghost var salt, hash := env.salt.value, kdf(DEFAULT_KDF, env.salt.value, replacement).value;
      forall i, j | 0 <= i < |changed.value| && 0 <= j < |renewed.value|
                    && renewed.value[j].id == changed.value[i].id && changed.value[i].status.Updated?
        ensures renewed.value[j].status !in {Failed(PassphraseMismatch), Failed(KdfError)}
      {
        ghost var id := listed[i].id;
        assert mid[id] == now[i];
        assert again[j] == FromRow(id, mid[id], FilterUid(peer));
        RekeyedUnlocks(id, before[id], FilterUid(uid), FilterUid(peer), salt, hash, change, i, env.faults, replacement, kdf);
      }
    }
  }
}
