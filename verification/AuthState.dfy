/**
 The state of the CTAP2 authenticator and the invariants that every run keeps,
 each over plain values: sign counters against the store, agreement of the
 credential cache with the store, the pinUvAuthToken, the PIN retry counter and
 the cursors of pending operations.
 */
module AuthState {
  import opened Bytes
  import opened Store
  import opened Database

  const MAX_COUNT: u32 := 0xffff_ffff
  const PIN_RETRIES: u32 := 8
  const SECOND := 1_000_000_000
  const TOKEN_LIFETIME := 600 * SECOND
  const CURSOR_LIFETIME := 30 * SECOND

  /** A credential as the running authenticator holds it. */
  datatype Credential = Credential(
    id: Bytes, rpId: Bytes, discoverable: bool, userId: Option<u32>, userHandle: Bytes,
    userName: Option<Bytes>, userDisplayName: Option<Bytes>, key: StoredTpmKey,
    policy: Option<StoredPcrPolicy>, recovery: Option<StoredRecoverySlot>, signCount: u32)

  function FromStored(c: StoredCredential): Credential {
    Credential(c.id, c.rpId, c.discoverable, c.userId, c.userHandle, c.userName, c.userDisplayName, c.key, c.policy,
               c.recovery, c.signCount)
  }

  function ToStored(c: Credential): StoredCredential {
    StoredCredential(c.id, c.rpId, c.discoverable, c.userId, c.userHandle, c.userName, c.userDisplayName, c.key,
                     c.policy, c.recovery, c.signCount, None)
  }

  function FromStoredAll(list: seq<StoredCredential>): (r: seq<Credential>)
    ensures |r| == |list|
    ensures forall i :: 0 <= i < |list| ==> r[i] == FromStored(list[i])
  {
    if list == [] then [] else [FromStored(list[0])] + FromStoredAll(list[1..])
  }

  function ToStoredAll(list: seq<Credential>): (r: seq<StoredCredential>)
    ensures |r| == |list|
    ensures forall i :: 0 <= i < |list| ==> r[i] == ToStored(list[i])
  {
    if list == [] then [] else [ToStored(list[0])] + ToStoredAll(list[1..])
  }

  ghost predicate DistinctCredentials(creds: seq<Credential>) {
    forall i, j :: 0 <= i < j < |creds| ==> creds[i].id != creds[j].id
  }

  ghost predicate HasCredential(creds: seq<Credential>, id: Bytes) {
    exists i :: 0 <= i < |creds| && creds[i].id == id
  }

  // ------------------------------------------------------- sign counters

  /** A sign count that left the authenticator in an assertion. */
  datatype Release = Release(id: Bytes, count: u32)

  function NextCount(count: u32): u32 {
    if count == MAX_COUNT then MAX_COUNT else count + 1
  }

  /** The counts of one credential strictly increase until they saturate. */
  ghost predicate Increasing(released: seq<Release>) {
    forall i, j :: 0 <= i < j < |released| && released[i].id == released[j].id ==>
      released[i].count < released[j].count || released[i].count == released[j].count == MAX_COUNT
  }

  /** Nothing held in memory or stored is behind what was released. */
  ghost predicate NotBehind(released: seq<Release>, creds: seq<Credential>, rows: Rows) {
    && (forall i, k :: 0 <= i < |released| && 0 <= k < |creds| && released[i].id == creds[k].id ==>
          released[i].count <= creds[k].signCount)
    && (forall i :: 0 <= i < |released| && released[i].id in rows ==>
          released[i].count <= rows[released[i].id].meta.signCount)
  }

  ghost predicate CountsMatch(creds: seq<Credential>, rows: Rows) {
    forall k :: 0 <= k < |creds| && creds[k].id in rows ==> rows[creds[k].id].meta.signCount == creds[k].signCount
  }

  /** Every id that ever existed is in `used`, so that a new random id is new to all. */
  ghost predicate Known(used: set<Bytes>, released: seq<Release>, creds: seq<Credential>, rows: Rows) {
    && (forall i :: 0 <= i < |released| ==> released[i].id in used)
    && (forall k :: 0 <= k < |creds| ==> creds[k].id in used)
    && rows.Keys <= used
  }

  ghost predicate CountsOk(released: seq<Release>, used: set<Bytes>, creds: seq<Credential>, rows: Rows) {
    && DistinctCredentials(creds)
    && Increasing(released) && NotBehind(released, creds, rows) && CountsMatch(creds, rows)
    && Known(used, released, creds, rows)
  }

  function Counted(rows: Rows, id: Bytes, count: u32): Rows
    requires id in rows
  {
    rows[id := rows[id].(meta := rows[id].meta.(signCount := count))]
  }

  lemma ReleaseKeepsCounts(released: seq<Release>, used: set<Bytes>, creds: seq<Credential>, rows: Rows, k: nat)
    requires CountsOk(released, used, creds, rows) && k < |creds| && creds[k].id in rows
    ensures var n := NextCount(creds[k].signCount);
            CountsOk(released + [Release(creds[k].id, n)], used, creds[k := creds[k].(signCount := n)],
                     Counted(rows, creds[k].id, n))
  {
    var n := NextCount(creds[k].signCount);
    var r, c := released + [Release(creds[k].id, n)], creds[k := creds[k].(signCount := n)];
    assert forall i :: 0 <= i < |c| ==> c[i].id == creds[i].id;
    forall i, j | 0 <= i < j < |r| && r[i].id == r[j].id
      ensures r[i].count < r[j].count || r[i].count == r[j].count == MAX_COUNT
    {
      if j == |released| {
        assert released[i].id == creds[k].id && released[i].count <= creds[k].signCount;
      }
    }
  }

  lemma SubsetKeepsCounts(released: seq<Release>, used: set<Bytes>, creds: seq<Credential>, rows: Rows,
                          creds': seq<Credential>, rows': Rows)
    requires CountsOk(released, used, creds, rows) && DistinctCredentials(creds')
    requires forall id :: id in rows' ==> id in rows && rows'[id].meta.signCount == rows[id].meta.signCount
    requires forall k :: 0 <= k < |creds'| ==> creds'[k].id in used && FromEither(creds'[k], creds, rows)
    ensures CountsOk(released, used, creds', rows')
  {
    forall i, k | 0 <= i < |released| && 0 <= k < |creds'| && released[i].id == creds'[k].id
      ensures released[i].count <= creds'[k].signCount
    {
      assert FromEither(creds'[k], creds, rows);
    }
    forall k | 0 <= k < |creds'| && creds'[k].id in rows'
      ensures rows'[creds'[k].id].meta.signCount == creds'[k].signCount
    {
      assert FromEither(creds'[k], creds, rows);
    }
  }

  /** A credential whose count was taken from memory or from its row. */
  ghost predicate FromEither(c: Credential, creds: seq<Credential>, rows: Rows) {
    || (exists i :: 0 <= i < |creds| && creds[i].id == c.id && creds[i].signCount == c.signCount)
    || (c.id in rows && rows[c.id].meta.signCount == c.signCount)
  }

  /** Saving the cache replaces the table by exactly the cached counts. */
  lemma SaveKeepsCounts(released: seq<Release>, used: set<Bytes>, creds: seq<Credential>, rows: Rows,
                        key: Option<Bytes>)
    requires CountsOk(released, used, creds, rows)
    ensures DistinctIds(ToStoredAll(creds))
    ensures CountsOk(released, used, creds, TableOf(ToStoredAll(creds), key))
  {
    var list := ToStoredAll(creds);
    var rows' := TableOf(list, key);
    forall id | id in rows'
      ensures exists k :: 0 <= k < |creds| && creds[k].id == id && rows'[id].meta.signCount == creds[k].signCount
    {
      TableLookup(list, key, id);
      var k :| 0 <= k < |list| && list[k].id == id;
      assert creds[k].id == id;
    }
    forall k | 0 <= k < |creds|
      ensures creds[k].id in rows' && rows'[creds[k].id].meta.signCount == creds[k].signCount
    {
      TableLookup(list, key, creds[k].id);
      assert list[k].id == creds[k].id;
    }
  }

  lemma RegisterKeepsCounts(released: seq<Release>, used: set<Bytes>, creds: seq<Credential>, rows: Rows, c: Credential)
    requires CountsOk(released, used, creds, rows) && c.id !in used
    ensures CountsOk(released, used + {c.id}, creds + [c], rows)
  {
  }

  lemma LoadedCountsOk(released: seq<Release>, used: set<Bytes>, creds: seq<Credential>, rows: Rows,
                       loaded: seq<Credential>)
    requires CountsOk(released, used, creds, rows) && DistinctCredentials(loaded)
    requires forall k :: 0 <= k < |loaded| ==> FromEither(loaded[k], [], rows)
    ensures CountsOk(released, used, loaded, rows)
  {
    forall k | 0 <= k < |loaded|
      ensures loaded[k].id in used && FromEither(loaded[k], creds, rows)
    {
      assert FromEither(loaded[k], [], rows);
    }
    SubsetKeepsCounts(released, used, creds, rows, loaded, rows);
  }

  lemma NoCredentialsOk(released: seq<Release>, used: set<Bytes>, creds: seq<Credential>, rows: Rows)
    requires CountsOk(released, used, creds, rows)
    ensures CountsOk(released, used, [], rows)
  {
  }

  // -------------------------------------------- the cache and the store

  ghost predicate SameCore(c: Credential, row: Row) {
    && c.rpId == row.meta.rpId && c.discoverable == row.meta.discoverable
    && c.userHandle == row.meta.userHandle && c.userName == row.meta.userName
    && c.userDisplayName == row.meta.userDisplayName && c.signCount == row.meta.signCount
    && c.key == FromBlob(row.primary.tpmKey, row.primary.publicKey)
  }

  /** The cache and the rows visible to the session are the same map. */
  ghost predicate Agree(creds: seq<Credential>, rows: Rows, uid: Option<u32>) {
    && (forall k :: 0 <= k < |creds| ==>
          creds[k].id in rows && Visible(rows[creds[k].id], uid) && SameCore(creds[k], rows[creds[k].id]))
    && (forall id :: id in VisibleIds(rows, uid) ==> HasCredential(creds, id))
  }

  ghost predicate OwnersOk(creds: seq<Credential>, uid: Option<u32>) {
    uid.Some? ==> forall k :: 0 <= k < |creds| ==> creds[k].userId == uid
  }

  /** What a successful load establishes. */
  lemma LoadEstablishes(list: seq<StoredCredential>, rows: Rows, uid: Option<u32>)
    requires Lists(list, rows, VisibleIds(rows, uid), uid)
    ensures var creds := FromStoredAll(list);
            && DistinctCredentials(creds) && Agree(creds, rows, uid) && OwnersOk(creds, uid)
            && forall k :: 0 <= k < |creds| ==> FromEither(creds[k], [], rows)
  {
    var creds := FromStoredAll(list);
    hide Before;
    forall i, j | 0 <= i < j < |creds|
      ensures creds[i].id != creds[j].id
    {
      if list[i].id == list[j].id {
        assert list[i] == list[j] && Before(list[i], list[j]);
        BeforeIrreflexive(list[i]);
      }
    }
    forall id | id in VisibleIds(rows, uid)
      ensures HasCredential(creds, id)
    {
      assert HasId(list, id);
      var i :| 0 <= i < |list| && list[i].id == id;
      assert creds[i].id == id;
    }
  }

  lemma SaveEstablishesAgreement(creds: seq<Credential>, key: Option<Bytes>, uid: Option<u32>)
    requires DistinctCredentials(creds) && OwnersOk(creds, uid)
    ensures Agree(creds, TableOf(ToStoredAll(creds), key), uid)
  {
    var list := ToStoredAll(creds);
    var rows := TableOf(list, key);
    forall k | 0 <= k < |creds|
      ensures creds[k].id in rows && Visible(rows[creds[k].id], uid) && SameCore(creds[k], rows[creds[k].id])
    {
      TableLookup(list, key, creds[k].id);
      assert list[k].id == creds[k].id;
      assert rows[creds[k].id] == ToRow(ToStored(creds[k]), key);
      SavedRowCore(creds[k], key);
    }
    forall id | id in VisibleIds(rows, uid)
      ensures HasCredential(creds, id)
    {
      TableLookup(list, key, id);
      var k :| 0 <= k < |list| && list[k].id == id;
      assert creds[k].id == id;
    }
  }

  /** A save writes back the cache and nothing else: a row is lost exactly when the cache does
      not have it, hence, while cache and store agree, exactly when it was not visible. */
  lemma SaveLosesExactly(creds: seq<Credential>, rows: Rows, key: Option<Bytes>, uid: Option<u32>, id: Bytes)
    requires DistinctCredentials(creds) && id in rows
    ensures id !in TableOf(ToStoredAll(creds), key) <==> !HasCredential(creds, id)
    ensures Agree(creds, rows, uid) ==> (id !in TableOf(ToStoredAll(creds), key) <==> !Visible(rows[id], uid))
  {
    var list := ToStoredAll(creds);
    assert DistinctIds(list);
    TableLookup(list, key, id);
    hide TableOf, SameCore;
    if HasCredential(creds, id) {
      var i :| 0 <= i < |creds| && creds[i].id == id;
      assert list[i].id == id;
    }
    if Agree(creds, rows, uid) {
      assert id in VisibleIds(rows, uid) <==> Visible(rows[id], uid);
    }
  }

  lemma SavedRowCore(c: Credential, key: Option<Bytes>)
    ensures SameCore(c, ToRow(ToStored(c), key)) && ToRow(ToStored(c), key).meta.userId == c.userId
  {
    hide MacMessage;
  }

  lemma CountKeepsAgreement(creds: seq<Credential>, rows: Rows, uid: Option<u32>, k: nat, n: u32)
    requires DistinctCredentials(creds) && Agree(creds, rows, uid) && k < |creds|
    ensures Agree(creds[k := creds[k].(signCount := n)], Counted(rows, creds[k].id, n), uid)
  {
    var c, r := creds[k := creds[k].(signCount := n)], Counted(rows, creds[k].id, n);
    assert forall i :: 0 <= i < |c| ==> c[i].id == creds[i].id;
    assert VisibleIds(r, uid) == VisibleIds(rows, uid);
    forall id | id in VisibleIds(r, uid)
      ensures HasCredential(c, id)
    {
      assert HasCredential(creds, id);
      var i :| 0 <= i < |creds| && creds[i].id == id;
      assert c[i].id == id;
    }
  }

  function Without(creds: seq<Credential>, k: nat): seq<Credential>
    requires k < |creds|
  {
    creds[..k] + creds[k + 1..]
  }

  /** Where an element of the shortened list came from. */
  function OldIndex(k: nat, i: nat): nat {
    if i < k then i else i + 1
  }

  function NewIndex(k: nat, i: nat): nat
    requires i != k
  {
    if i < k then i else i - 1
  }

  lemma WithoutAt(creds: seq<Credential>, k: nat, i: nat)
    requires k < |creds| && i < |Without(creds, k)|
    ensures OldIndex(k, i) < |creds| && OldIndex(k, i) != k && Without(creds, k)[i] == creds[OldIndex(k, i)]
  {
  }

  lemma KeptAt(creds: seq<Credential>, k: nat, i: nat)
    requires k < |creds| && i < |creds| && i != k
    ensures NewIndex(k, i) < |Without(creds, k)| && Without(creds, k)[NewIndex(k, i)] == creds[i]
  {
  }

  lemma WithoutKeepsDistinct(creds: seq<Credential>, k: nat)
    requires k < |creds| && DistinctCredentials(creds)
    ensures DistinctCredentials(Without(creds, k))
  {
    hide Without;
    var c := Without(creds, k);
    forall i, j | 0 <= i < j < |c|
      ensures c[i].id != c[j].id
    {
      WithoutAt(creds, k, i);
      WithoutAt(creds, k, j);
    }
  }

  lemma WithoutKeepsOwners(creds: seq<Credential>, k: nat, uid: Option<u32>)
    requires k < |creds| && OwnersOk(creds, uid)
    ensures OwnersOk(Without(creds, k), uid)
  {
    hide Without;
    forall i | 0 <= i < |Without(creds, k)|
      ensures uid.Some? ==> Without(creds, k)[i].userId == uid
    {
      WithoutAt(creds, k, i);
    }
  }

  lemma DeleteKeepsAgreement(creds: seq<Credential>, rows: Rows, uid: Option<u32>, k: nat)
    requires DistinctCredentials(creds) && Agree(creds, rows, uid) && k < |creds|
    ensures Agree(Without(creds, k), rows - {creds[k].id}, uid)
  {
    hide Without, SameCore;
    var c, r := Without(creds, k), rows - {creds[k].id};
    forall i | 0 <= i < |c|
      ensures c[i].id in r && Visible(r[c[i].id], uid) && SameCore(c[i], r[c[i].id])
    {
      WithoutAt(creds, k, i);
    }
    forall id | id in VisibleIds(r, uid)
      ensures HasCredential(c, id)
    {
      assert id in VisibleIds(rows, uid) && HasCredential(creds, id);
      var i :| 0 <= i < |creds| && creds[i].id == id;
      KeptAt(creds, k, i);
    }
  }

  lemma DeleteKeepsCounts(released: seq<Release>, used: set<Bytes>, creds: seq<Credential>, rows: Rows, k: nat)
    requires CountsOk(released, used, creds, rows) && k < |creds|
    ensures CountsOk(released, used, Without(creds, k), rows - {creds[k].id})
  {
    WithoutKeepsDistinct(creds, k);
    hide Without;
    var c := Without(creds, k);
    forall i | 0 <= i < |c|
      ensures c[i].id in used && FromEither(c[i], creds, rows)
    {
      WithoutAt(creds, k, i);
    }
    SubsetKeepsCounts(released, used, creds, rows, c, rows - {creds[k].id});
  }

  // ------------------------------------------------------ the PIN/UV token

  datatype Permission = MakeCredentialPermission | GetAssertionPermission | ManagementPermission

  datatype Token = Token(value: Bytes, permissions: set<Permission>, rpId: Option<Bytes>, issuedAt: nat)

  /** What can happen to the token: it is issued, used successfully, or dropped. */
  datatype TokenEvent =
    | Issued(token: Token)
    | Accepted(value: Bytes, permission: Permission, rpId: Option<Bytes>, message: Bytes, at: nat)
    | Dropped(reason: DropReason)

  datatype DropReason = Cancelled | PinReset | Restarted | FailedCheck

  /** No later issue, cancel, PIN-clearing reset, restart or failed check. */
  ghost predicate Undisturbed(log: seq<TokenEvent>, from: nat, to: nat) {
    forall k :: from <= k < to && k < |log| ==> log[k].Accepted?
  }

  /** Does this token allow the operation on this relying party at this time? */
  predicate Allows(t: Token, permission: Permission, rpId: Option<Bytes>, now: nat) {
    t.issuedAt <= now <= t.issuedAt + TOKEN_LIFETIME && permission in t.permissions && (t.rpId.None? || t.rpId == rpId)
  }

  ghost predicate IssuedBefore(log: seq<TokenEvent>, i: nat, j: nat)
    requires i < |log| && log[i].Accepted?
  {
    && j < i && log[j].Issued? && log[j].token.value == log[i].value
    && Allows(log[j].token, log[i].permission, log[i].rpId, log[i].at)
    && Undisturbed(log, j + 1, i)
  }

  /** Every accepted use goes back to an issue that still counted. */
  ghost predicate AllJustified(log: seq<TokenEvent>) {
    forall i :: 0 <= i < |log| && log[i].Accepted? ==> exists j: nat :: IssuedBefore(log, i, j)
  }

  ghost predicate LiveSince(log: seq<TokenEvent>, token: Token, j: nat) {
    j < |log| && log[j] == Issued(token) && Undisturbed(log, j + 1, |log|)
  }

  ghost predicate TokenOk(log: seq<TokenEvent>, token: Option<Token>, clock: nat) {
    && AllJustified(log)
    && (token.Some? ==> token.value.issuedAt <= clock && exists j: nat :: LiveSince(log, token.value, j))
    && IssuesScoped(log)
  }

  /** A token that may be used for assertions is always bound to a relying party. */
  ghost predicate IssuesScoped(log: seq<TokenEvent>) {
    forall j :: 0 <= j < |log| && log[j].Issued? && GetAssertionPermission in log[j].token.permissions ==>
      log[j].token.rpId.Some?
  }

  /** A relying-party-scoped token is never accepted for credential management, and a use
      for an assertion goes back to a token for exactly that relying party. */
  lemma AcceptedScope(log: seq<TokenEvent>, i: nat) returns (j: nat)
    requires AllJustified(log) && IssuesScoped(log) && i < |log| && log[i].Accepted?
    ensures IssuedBefore(log, i, j)
    ensures log[i].rpId.None? ==> log[j].token.rpId.None? && GetAssertionPermission !in log[j].token.permissions
    ensures log[i].permission == GetAssertionPermission ==> log[j].token.rpId == log[i].rpId
    ensures log[i].at <= log[j].token.issuedAt + TOKEN_LIFETIME
  {
    j :| IssuedBefore(log, i, j);
  }

  lemma JustifiedExtends(log: seq<TokenEvent>, e: TokenEvent)
    requires AllJustified(log)
    requires e.Accepted? ==> exists j: nat :: IssuedBefore(log + [e], |log|, j)
    ensures AllJustified(log + [e])
  {
    var l := log + [e];
    forall i | 0 <= i < |l| && l[i].Accepted?
      ensures exists j: nat :: IssuedBefore(l, i, j)
    {
      if i < |log| {
        var j: nat :| IssuedBefore(log, i, j);
        assert IssuedBefore(l, i, j);
      }
    }
  }

  lemma TokenIssuedOk(log: seq<TokenEvent>, token: Option<Token>, clock: nat, t: Token)
    requires TokenOk(log, token, clock)
    requires GetAssertionPermission in t.permissions ==> t.rpId.Some?
    ensures TokenOk(log + [Issued(t)], Some(t), t.issuedAt)
  {
    JustifiedExtends(log, Issued(t));
    assert LiveSince(log + [Issued(t)], t, |log|);
  }

  lemma TokenDroppedOk(log: seq<TokenEvent>, token: Option<Token>, clock: nat, reason: DropReason)
    requires TokenOk(log, token, clock)
    ensures TokenOk(log + [Dropped(reason)], None, clock)
  {
    JustifiedExtends(log, Dropped(reason));
  }

  lemma TokenAcceptedOk(log: seq<TokenEvent>, t: Token, clock: nat, permission: Permission, rpId: Option<Bytes>,
                        message: Bytes, now: nat)
    requires TokenOk(log, Some(t), clock) && clock <= now && Allows(t, permission, rpId, now)
    ensures TokenOk(log + [Accepted(t.value, permission, rpId, message, now)], Some(t), now)
  {
    var e := Accepted(t.value, permission, rpId, message, now);
    var j: nat :| LiveSince(log, t, j);
    assert IssuedBefore(log + [e], |log|, j);
    JustifiedExtends(log, e);
    assert LiveSince(log + [e], t, j);
  }

  lemma TokenIssuedInPast(log: seq<TokenEvent>, token: Option<Token>, clock: nat)
    requires TokenOk(log, token, clock)
    ensures token.Some? ==> token.value.issuedAt <= clock
  {
  }

  lemma TokenLater(log: seq<TokenEvent>, token: Option<Token>, clock: nat, later: nat)
    requires TokenOk(log, token, clock) && clock <= later
    ensures TokenOk(log, token, later)
  {
  }

  // -------------------------------------------------------------- the PIN

  /** What happens to the PIN: it is set or changed, compared with a right or a wrong
      one, cleared, or reloaded at a restart with this many retries left. */
  datatype PinEvent = PinSet | PinRight | PinWrong | PinCleared | PinReloaded(retries: u32)

  /** Wrong comparisons since the last right one. */
  function WrongSince(log: seq<PinEvent>): int {
    if log == [] then 0
    else
      match log[|log| - 1]
      case PinWrong => WrongSince(log[..|log| - 1]) + 1
      case PinReloaded(retries) => PIN_RETRIES - retries
      case _ => 0
  }

  /** A right comparison is never accepted after eight wrong ones in a row. */
  ghost predicate NeverGuessedLate(log: seq<PinEvent>) {
    forall i :: 0 <= i < |log| && log[i].PinRight? ==> WrongSince(log[..i]) < PIN_RETRIES
  }

  ghost predicate PinOk(log: seq<PinEvent>, pin: Option<StoredPin>) {
    && NeverGuessedLate(log)
    && (pin.Some? ==> WrongSince(log) + pin.value.retries == PIN_RETRIES)
  }

  /** Apart from the first start, a reload never changes the count of wrong comparisons. */
  ghost predicate FaithfulReloads(log: seq<PinEvent>) {
    forall i :: 0 < i < |log| && log[i].PinReloaded? ==> WrongSince(log[..i + 1]) == WrongSince(log[..i])
  }

  lemma PinLogExtends(log: seq<PinEvent>, e: PinEvent)
    requires NeverGuessedLate(log) && (e.PinRight? ==> WrongSince(log) < PIN_RETRIES)
    ensures NeverGuessedLate(log + [e])
    ensures WrongSince(log + [e]) == (match e
                                      case PinWrong => WrongSince(log) + 1
                                      case PinReloaded(retries) => PIN_RETRIES - retries
                                      case _ => 0)
    ensures FaithfulReloads(log) && (e.PinReloaded? && log != [] ==> WrongSince(log) + e.retries == PIN_RETRIES) ==>
              FaithfulReloads(log + [e])
  {
    var l := log + [e];
    assert l[..|log|] == log && l[|log|] == e;
    RightsExtend(log, e);
    if FaithfulReloads(log) && (e.PinReloaded? && log != [] ==> WrongSince(log) + e.retries == PIN_RETRIES) {
      ReloadsExtend(log, e);
    }
  }

  lemma RightsExtend(log: seq<PinEvent>, e: PinEvent)
    requires NeverGuessedLate(log) && (e.PinRight? ==> WrongSince(log) < PIN_RETRIES)
    ensures NeverGuessedLate(log + [e])
  {
    hide WrongSince;
    var l := log + [e];
    forall i | 0 <= i < |l| && l[i].PinRight?
      ensures WrongSince(l[..i]) < PIN_RETRIES
    {
      assert l[..i] == log[..i];
      assert log[..|log|] == log;
    }
  }

  lemma ReloadsExtend(log: seq<PinEvent>, e: PinEvent)
    requires FaithfulReloads(log)
    requires e.PinReloaded? && log != [] ==> WrongSince(log + [e]) == WrongSince(log)
    ensures FaithfulReloads(log + [e])
  {
    hide WrongSince;
    var l := log + [e];
    forall i | 0 < i < |l| && l[i].PinReloaded?
      ensures WrongSince(l[..i + 1]) == WrongSince(l[..i])
    {
      assert l[..i] == log[..i];
      if i < |log| {
        assert l[..i + 1] == log[..i + 1];
      } else {
        assert l[..i + 1] == l && log[..i] == log;
      }
    }
  }

  lemma PinReloadedOk(log: seq<PinEvent>, pin: Option<StoredPin>, state: Option<StoredPin>)
    requires PinOk(log, pin)
    ensures PinOk(if state.Some? then log + [PinReloaded(state.value.retries)] else log, state)
    ensures state.Some? && (log == [] || state == pin) && FaithfulReloads(log) ==>
              FaithfulReloads(log + [PinReloaded(state.value.retries)])
  {
    if state.Some? {
      PinLogExtends(log, PinReloaded(state.value.retries));
    }
  }

  // ---------------------------------------------------------- the cursors

  datatype PendingAssertion = PendingAssertion(
    rpId: Bytes, clientDataHash: Bytes, indexes: seq<nat>, total: nat, createdAt: nat, uid: Option<u32>,
    userVerified: bool)

  datatype ManagementState = ManagementState(
    rpIndexes: seq<nat>, rpPosition: nat, credentialIndexes: seq<nat>, credentialPosition: nat, uid: Option<u32>,
    createdAt: nat)

  ghost predicate AllDiscoverable(indexes: seq<nat>, creds: seq<Credential>) {
    forall i :: 0 <= i < |indexes| ==> indexes[i] < |creds| && creds[indexes[i]].discoverable
  }

  /** The management cursors are in range and point only at discoverable credentials. */
  ghost predicate CursorsOk(m: Option<ManagementState>, creds: seq<Credential>) {
    m.Some? ==>
      && AllDiscoverable(m.value.rpIndexes, creds) && m.value.rpPosition <= |m.value.rpIndexes|
      && AllDiscoverable(m.value.credentialIndexes, creds)
      && m.value.credentialPosition <= |m.value.credentialIndexes|
  }

  /** The assertions still to come are in range and belong to the asked relying party. */
  ghost predicate PendingOk(p: Option<PendingAssertion>, creds: seq<Credential>) {
    p.Some? ==> p.value.indexes != [] && forall i :: 0 <= i < |p.value.indexes| ==>
                  p.value.indexes[i] < |creds| && creds[p.value.indexes[i]].rpId == p.value.rpId
  }

  /** Changing counts or user data, but not the list's shape, keeps every cursor. */
  ghost predicate SameShape(creds: seq<Credential>, creds': seq<Credential>) {
    |creds| == |creds'| && forall i :: 0 <= i < |creds| ==>
      creds[i].id == creds'[i].id && creds[i].rpId == creds'[i].rpId && creds[i].discoverable == creds'[i].discoverable
      && creds[i].userId == creds'[i].userId
  }

  lemma SameShapeKeepsCursors(creds: seq<Credential>, creds': seq<Credential>, m: Option<ManagementState>,
                              p: Option<PendingAssertion>, uid: Option<u32>)
    requires SameShape(creds, creds')
    ensures CursorsOk(m, creds) ==> CursorsOk(m, creds')
    ensures PendingOk(p, creds) ==> PendingOk(p, creds')
    ensures OwnersOk(creds, uid) ==> OwnersOk(creds', uid)
    ensures DistinctCredentials(creds) ==> DistinctCredentials(creds')
  {
  }

  lemma NoCursorsOk(creds: seq<Credential>, uid: Option<u32>)
    ensures CursorsOk(None, creds) && PendingOk(None, creds) && OwnersOk([], uid)
  {
  }

  /** The invariants of an authenticator that has done nothing yet. */
  lemma FirstStart(rows: Rows, uid: Option<u32>, now: nat)
    ensures CountsOk([], rows.Keys, [], rows) && OwnersOk([], uid) && TokenOk([], None, now) && PinOk([], None)
    ensures CursorsOk(None, []) && PendingOk(None, []) && FaithfulReloads([])
    ensures forall retries :: FaithfulReloads([PinReloaded(retries)])
  {
  }

  /** Deleting credential `k` leaves a pending assertion on its credentials exactly when
      all of its indexes lie below `k`; any other index then names another credential, or
      none. */
  lemma PendingSurvivesDeleteExactly(creds: seq<Credential>, k: nat, indexes: seq<nat>)
    requires DistinctCredentials(creds) && k < |creds|
    requires forall i :: 0 <= i < |indexes| ==> indexes[i] < |creds|
    ensures (forall i :: 0 <= i < |indexes| ==>
               indexes[i] < |Without(creds, k)| && Without(creds, k)[indexes[i]] == creds[indexes[i]])
            <==> (forall i :: 0 <= i < |indexes| ==> indexes[i] < k)
  {
    forall i | 0 <= i < |indexes|
      ensures (indexes[i] < |Without(creds, k)| && Without(creds, k)[indexes[i]] == creds[indexes[i]])
              <==> indexes[i] < k
    {
      if indexes[i] < |Without(creds, k)| {
        WithoutAt(creds, k, indexes[i]);
      }
    }
  }

  /** Three credentials, two of one party and one of another: with the second one pending,
      deleting the first makes the pending index name the other party's credential. */
  lemma DeleteCanMisdirectPending(c: Credential, a: Bytes, b: Bytes, clientDataHash: Bytes)
    requires a != b
    ensures var creds := [c.(id := [1], rpId := a), c.(id := [2], rpId := a), c.(id := [3], rpId := b)];
            var pending := Some(PendingAssertion(a, clientDataHash, [1], 2, 0, None, false));
            && DistinctCredentials(creds) && PendingOk(pending, creds)
            && !PendingOk(pending, Without(creds, 0)) && Without(creds, 0)[1].rpId == b
  {
    var creds := [c.(id := [1], rpId := a), c.(id := [2], rpId := a), c.(id := [3], rpId := b)];
    assert Without(creds, 0) == [creds[1], creds[2]];
    var pending := PendingAssertion(a, clientDataHash, [1], 2, 0, None, false);
    assert pending.indexes[0] == 1;
  }
}
