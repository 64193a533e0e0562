/**
 The CTAP2 authenticator as a state machine. Every public operation keeps the
 class invariant `Valid`, so what it says about the histories holds in every run,
 with any session changes, refusals, TPM failures, store faults and restarts.
 */
module Ctap2 {
  import opened Bytes
  import opened Store
  import opened Database
  import opened AuthState
  import opened Selection
  import Cbor
  import Canonical

  datatype ErrorStatus =
    | InvalidCommand | InvalidParameter | InvalidCbor | MissingParameter | CredentialExcluded | UnsupportedAlgorithm
    | OperationDenied | NoCredentials | PinInvalid | PinBlocked | PinAuthInvalid | PinNotSet | PinPolicyViolation

  datatype Result<+T> = Ok(value: T) | Err(status: ErrorStatus)

  const MAX_RESIDENT_CREDENTIALS := 128

  /** What the world contributes to one command: two clock readings, the session checks
      (of the command, of the token, around the approval) and the user's answer, the TPM,
      the store and fresh random values. */
  datatype Env = Env(
    now: nat, later: nat,
    sessionFirst: bool, sessionToken: bool, sessionBefore: bool, approved: bool, sessionAfter: bool,
    passphraseSet: bool, tpmOk: bool,
    loadFault: bool, storeFault: bool, pinFault: bool, keyReadable: bool, deleteFault: nat -> bool,
    newId: Bytes, newKey: StoredTpmKey, newPolicy: StoredPcrPolicy, newRecovery: Option<StoredRecoverySlot>,
    newSalt: Bytes, newToken: Bytes)

  // ------------------------------------------------------------- requests

  /** A pinUvAuthParam: a 16- or 32-byte prefix of an HMAC tag, or some other length. */
  datatype AuthParam = AuthParam(length: nat, tag: Mac)

  datatype PinAuth = PinAuth(protocol: Option<int>, param: Option<AuthParam>)

  datatype UserEntity = UserEntity(id: Option<Bytes>, name: Option<Bytes>, displayName: Option<Bytes>)

  datatype MakeCredentialRequest = MakeCredentialRequest(
    clientDataHash: Option<Bytes>, rp: Option<Option<Bytes>>, user: Option<UserEntity>, supportsEs256: Option<bool>,
    attestationKnown: bool, residentKeyKnown: bool, discoverable: bool, uv: bool,
    excludeList: Option<seq<Descriptor>>, auth: PinAuth)

  datatype GetAssertionRequest = GetAssertionRequest(
    rpId: Option<Bytes>, clientDataHash: Option<Bytes>, allowList: Option<seq<Descriptor>>, uv: bool, auth: PinAuth)

  /** The platform's key agreement key: absent, malformed or a point on the curve. */
  datatype KeyParam = NoKey | BadKey | GoodKey

  /** An encrypted new PIN: is its length a multiple of the block size, and what does it
      decrypt to, if its padding is clean? */
  datatype NewPin = NewPin(lengthOk: bool, plain: Option<Bytes>)

  /** An encrypted PIN hash and its plaintext. */
  datatype PinHash = PinHash(lengthOk: bool, plain: Bytes)

  datatype PinRequest =
    | GetRetries(extraParameters: bool)
    | GetKeyAgreement(extraParameters: bool)
    | SetPin(key: KeyParam, newPin: Option<NewPin>, macOk: Option<bool>)
    | ChangePin(key: KeyParam, newPin: Option<NewPin>, pinHash: Option<PinHash>, macOk: Option<bool>)
    | GetPinToken(key: KeyParam, pinHash: Option<PinHash>, permissions: Option<set<Permission>>, rpId: Option<Bytes>)
    | GetUvToken(key: KeyParam, permissions: Option<set<Permission>>, rpId: Option<Bytes>)
    | UnknownPinCommand

  datatype ManagementRequest = ManagementRequest(
    subCommand: Option<int>, params: Option<seq<Cbor.Entry>>, auth: PinAuth)

  datatype Request =
    | MakeCredential(make: Option<MakeCredentialRequest>)
    | GetAssertion(get: Option<GetAssertionRequest>)
    | GetNextAssertion(bodyEmpty: bool)
    | GetInfo
    | ClientPin(protocol: Option<int>, pin: Option<PinRequest>)
    | Reset
    | CredentialManagement(preview: bool, manage: Option<ManagementRequest>)
    | SelectionRequest
    | UnknownCommand

  // ------------------------------------------------------------ responses

  datatype Assertion = Assertion(
    id: Bytes, rpId: Bytes, userVerified: bool, signCount: u32, clientDataHash: Bytes, userHandle: Bytes,
    userName: Option<Bytes>, userDisplayName: Option<Bytes>, total: Option<nat>)

  datatype Response =
    | Failed(status: ErrorStatus)
    | Panicked
    | Registered(newId: Bytes, verified: bool)
    | Asserted(assertion: Assertion)
    | Retries(count: u32)
    | KeyAgreement
    | TokenGranted(value: Bytes)
    | CredsMetadata(existing: nat, remaining: nat)
    | RpEntry(rpId: Bytes, rpIdHash: Bytes, totalRps: Option<nat>)
    | CredentialEntry(credential: Credential, totalCredentials: Option<nat>)
    | Info(clientPin: bool)
    | Done

  /** Everything a command reads and leaves, but the clock. */
  datatype Snapshot = Snapshot(
    uid: Option<u32>, credentials: seq<Credential>, pending: Option<PendingAssertion>,
    management: Option<ManagementState>, clientPin: Option<StoredPin>, agreed: bool, token: Option<Token>, rows: Rows,
    storedPin: Option<StoredPin>, released: seq<Release>, tokenLog: seq<TokenEvent>,
    pinLog: seq<PinEvent>, storeHealthy: bool, pinHealthy: bool)

  /** A pinUvAuthParam check: what is presented, for which message, permission and party. */
  datatype TokenCheck = TokenCheck(auth: PinAuth, message: Bytes, permission: Permission, rpId: Option<Bytes>)

  function AssertionFor(c: Credential, verified: bool, hash: Bytes, total: nat): Assertion {
    Assertion(c.id, c.rpId, verified, NextCount(c.signCount), hash, c.userHandle,
              if verified then c.userName else None, if verified then c.userDisplayName else None,
              if total > 1 then Some(total) else None)
  }

  /** Only an assertion releases a count: the one it carries, and the store already has it. */
  ghost predicate ReleasedBy(r: Response, before: seq<Release>, after: seq<Release>, rows: Rows) {
    if r.Asserted? then
      && after == before + [Release(r.assertion.id, r.assertion.signCount)]
      && r.assertion.id in rows && rows[r.assertion.id].meta.signCount == r.assertion.signCount
    else after == before
  }

  function Elapsed(now: nat, at: nat): nat {
    if now >= at then now - at else 0
  }

  function ToResponse(r: Result<Response>): Response {
    match r
    case Ok(response) => response
    case Err(status) => Failed(status)
  }

  function FromResponse(response: Response): Result<Response> {
    if response.Failed? then Err(response.status) else Ok(response)
  }

  predicate DescriptorsOk(list: Option<seq<Descriptor>>) {
    list.Some? ==> forall i :: 0 <= i < |list.value| ==> list.value[i].Descriptor?
  }

  predicate Excluded(creds: seq<Credential>, rpId: Bytes, list: Option<seq<Descriptor>>) {
    list.Some? && exists i :: 0 <= i < |creds| && creds[i].rpId == rpId && ListContains(list.value, creds[i].id)
  }

  // ---------------------------------------------------- request map access

  const ID: Cbor.Value := Cbor.Text([0x69, 0x64])
  const NAME: Cbor.Value := Cbor.Text([0x6e, 0x61, 0x6d, 0x65])
  const DISPLAY_NAME: Cbor.Value :=
    Cbor.Text([0x64, 0x69, 0x73, 0x70, 0x6c, 0x61, 0x79, 0x4e, 0x61, 0x6d, 0x65])

  function MapBytes(entries: seq<Cbor.Entry>, key: Cbor.Value): Option<Bytes> {
    match Canonical.MapValue(entries, key)
    case Some(ByteString(b)) => Some(b)
    case _ => None
  }

  function MapText(entries: seq<Cbor.Entry>, key: Cbor.Value): Option<Bytes> {
    match Canonical.MapValue(entries, key)
    case Some(Text(t)) => Some(t)
    case _ => None
  }

  function MapMap(entries: seq<Cbor.Entry>, key: Cbor.Value): Option<seq<Cbor.Entry>> {
    match Canonical.MapValue(entries, key)
    case Some(Map(m)) => Some(m)
    case _ => None
  }

  /** The credential id that a management request names. */
  function NamedId(params: Option<seq<Cbor.Entry>>): Result<Bytes> {
    if params.None? then Err(MissingParameter)
    else
      var descriptor := MapMap(params.value, Cbor.Integer(2));
      if descriptor.None? then Err(MissingParameter)
      else
        var id := MapBytes(descriptor.value, ID);
        if id.None? then Err(MissingParameter) else Ok(id.value)
  }

  predicate IsNamed(c: Credential, id: Bytes) {
    c.discoverable && c.id == id
  }

  /** The position of the first discoverable credential with this id, or the length. */
  function PositionOf(creds: seq<Credential>, id: Bytes): (k: nat)
    ensures k <= |creds|
    ensures k < |creds| ==> IsNamed(creds[k], id)
    ensures forall i :: 0 <= i < k ==> !IsNamed(creds[i], id)
  {
    if creds == [] || IsNamed(creds[0], id) then 0 else 1 + PositionOf(creds[1..], id)
  }

  function UpdatedUser(c: Credential, user: seq<Cbor.Entry>): Credential {
    var handle := MapBytes(user, ID);
    c.(userHandle := if handle.Some? then handle.value else c.userHandle,
       userName := MapText(user, NAME), userDisplayName := MapText(user, DISPLAY_NAME))
  }

  class Authenticator {
    const store: CredentialStore
    const sha256: Bytes -> Bytes
    const pbkdf2: (Bytes, Bytes) -> Bytes
    /** A TPM path is configured, so credentials are reloaded before each assertion. */
    const daemon: bool

    var uid: Option<u32>
    var credentials: seq<Credential>
    var pending: Option<PendingAssertion>
    var clientPin: Option<StoredPin>
    var keyAgreement: bool
    var token: Option<Token>
    var management: Option<ManagementState>

    /** The latest moment seen, and the histories the invariants speak about. */
    ghost var clock: nat
    ghost var released: seq<Release>
    ghost var usedIds: set<Bytes>
    ghost var tokenLog: seq<TokenEvent>
    ghost var pinLog: seq<PinEvent>
    /** No save, load or reset has failed in the store. */
    ghost var storeHealthy: bool
    /** Every change of the PIN state has reached the store. */
    ghost var pinHealthy: bool
    /** No credential was deleted since the pending assertion was set up. */
    ghost var pendingIntact: bool

    ghost predicate Valid()
      reads this, store
    {
      && store.Valid()
      && CountsOk(released, usedIds, credentials, store.rows)
      && OwnersOk(credentials, uid)
      && (storeHealthy ==> Agree(credentials, store.rows, uid))
      && TokenOk(tokenLog, token, clock)
      && PinOk(pinLog, clientPin)
      && (clientPin.Some? ==> PinStorable(clientPin.value))
      && (pinHealthy ==> store.pin == clientPin && FaithfulReloads(pinLog))
      && CursorsOk(management, credentials)
      && (pendingIntact ==> PendingOk(pending, credentials))
    }

    lemma ValidParts()
      requires Valid()
      ensures DistinctCredentials(credentials) && (storeHealthy ==> Agree(credentials, store.rows, uid))
    {
    }

    ghost function Snap(): Snapshot
      reads this, store
    {
      Snapshot(uid, credentials, pending, management, clientPin, keyAgreement, token, store.rows, store.pin,
               released, tokenLog, pinLog, storeHealthy, pinHealthy)
    }

    // ------------------------------------------------------ start and stop

    /** A first start on whatever the store holds. */
    constructor (store: CredentialStore, sha256: Bytes -> Bytes, pbkdf2: (Bytes, Bytes) -> Bytes, daemon: bool,
                 uid: Option<u32>, env: Env)
      requires store.Valid()
      ensures Valid() && this.store == store && this.uid == uid && this.daemon == daemon
      ensures this.sha256 == sha256 && this.pbkdf2 == pbkdf2
      ensures released == [] && usedIds == store.rows.Keys
      ensures pending == None && management == None && token == None
      ensures clock == env.now && !keyAgreement && tokenLog == []
      ensures clientPin == (if env.pinFault then None else store.pin) && (pinHealthy <==> !env.pinFault)
      ensures pinLog == if clientPin.Some? then [PinReloaded(clientPin.value.retries)] else []
      ensures (storeHealthy <==> Loads(store.rows, uid, env)) && Shown(credentials, store.rows, uid, env)
    {
      this.store, this.sha256, this.pbkdf2, this.daemon := store, sha256, pbkdf2, daemon;
      this.uid := uid;
      credentials, pending, clientPin, keyAgreement, token, management := [], None, None, false, None, None;
      clock, released, usedIds, tokenLog, pinLog := env.now, [], store.rows.Keys, [], [];
      storeHealthy, pinHealthy, pendingIntact := false, false, true;
      new;
      hide *;
      FirstLoad(env);
    }

    method FirstLoad(env: Env)
      requires store.Valid() && credentials == [] && pending == None && clientPin == None && token == None
      requires management == None && released == [] && usedIds == store.rows.Keys && tokenLog == [] && pinLog == []
      requires !storeHealthy && !pinHealthy
      modifies this`credentials, this`storeHealthy, this`clientPin, this`pinLog, this`pinHealthy
      ensures Valid()
      ensures clientPin == (if env.pinFault then None else store.pin) && (pinHealthy <==> !env.pinFault)
      ensures pinLog == if clientPin.Some? then [PinReloaded(clientPin.value.retries)] else []
      ensures (storeHealthy <==> Loads(store.rows, uid, env)) && Shown(credentials, store.rows, uid, env)
    {
      hide CredentialStore.Valid, CountsOk, Agree, OwnersOk, PinOk, CursorsOk, PendingOk, TokenOk, FaithfulReloads,
           Loads, Shown;
      FirstStart(store.rows, uid, clock);
      ReloadCredentials(env);
      ReloadPin(env);
      assert clientPin.Some? ==> pinLog == [PinReloaded(clientPin.value.retries)];
      assert clientPin.None? ==> pinLog == [];
      pinHealthy := !env.pinFault;
    }

    /** The process ends, and a new one starts for the session it finds. */
    method Restart(newUid: Option<u32>, env: Env)
      requires Valid() && clock <= env.now
      modifies this
      ensures Valid() && clock == env.now
      ensures uid == newUid && pending == None && management == None && token == None && !keyAgreement
      ensures released == old(released) && usedIds == old(usedIds)
      ensures tokenLog == old(tokenLog) + [Dropped(Restarted)]
      ensures clientPin == (if env.pinFault then None else store.pin)
      ensures pinLog == old(pinLog) + (if clientPin.Some? then [PinReloaded(clientPin.value.retries)] else [])
      ensures pinHealthy <==> old(pinHealthy) && !env.pinFault
      ensures pinHealthy ==> clientPin == old(clientPin)
      ensures (storeHealthy <==> Loads(store.rows, uid, env)) && Shown(credentials, store.rows, uid, env)
      ensures store.rows == old(store.rows)
    {
      hide CredentialStore.Valid, CountsOk, Agree, OwnersOk, PinOk, CursorsOk, PendingOk, TokenOk, FaithfulReloads,
           Loads,
           Shown;
      ReloadPin(env);
      DropToken(Restarted);
      ForgetSession(newUid, env.now);
      ReloadCredentials(env);
    }

    /** What does not survive the process, besides PIN state and token. */
    method ForgetSession(newUid: Option<u32>, ghost now: nat)
      requires Valid() && clock <= now && token == None
      modifies this`clock, this`uid, this`credentials, this`storeHealthy, this`pending, this`keyAgreement,
               this`management, this`pendingIntact
      ensures Valid() && clock == now
      ensures uid == newUid && credentials == [] && pending == None && management == None && !keyAgreement
    {
      hide CredentialStore.Valid, CountsOk, Agree, OwnersOk, PinOk, CursorsOk, PendingOk, TokenOk, FaithfulReloads;
      TokenLater(tokenLog, None, clock, now);
      NoCredentialsOk(released, usedIds, credentials, store.rows);
      NoCursorsOk([], newUid);
      clock, uid, credentials, storeHealthy := now, newUid, [], false;
      pending, keyAgreement, management, pendingIntact := None, false, None, true;
    }

    /** The PIN state of a new process is what the store holds. */
    method ReloadPin(env: Env)
      requires Valid()
      modifies this`clientPin, this`pinLog, this`pinHealthy
      ensures Valid()
      ensures clientPin == (if env.pinFault then None else store.pin)
      ensures pinLog == old(pinLog) + (if clientPin.Some? then [PinReloaded(clientPin.value.retries)] else [])
      ensures pinHealthy <==> old(pinHealthy) && !env.pinFault
    {
      hide CredentialStore.Valid, CountsOk, Agree, OwnersOk, CursorsOk, PendingOk, TokenOk, CredentialStore.PinIntact;
      store.ValidPin();
      var ok, state := store.LoadPin(env.pinFault);
      PinReloadedOk(pinLog, clientPin, state);
      if state.Some? {
        pinLog := pinLog + [PinReloaded(state.value.retries)];
      }
      pinHealthy := pinHealthy && ok;
      clientPin := state;
    }

    /** A load for this user succeeds. */
    ghost predicate Loads(rows: Rows, uid: Option<u32>, env: Env) {
      CanLoad(rows, uid, store.hmacKey, env.keyReadable, env.loadFault)
    }

    /** The list that a load by this user puts into the cache: the visible rows in the order
        of the store, or nothing. */
    ghost predicate Shown(creds: seq<Credential>, rows: Rows, uid: Option<u32>, env: Env) {
      if Loads(rows, uid, env)
      then && Agree(creds, rows, uid)
           && exists list :: Lists(list, rows, VisibleIds(rows, uid), uid) && creds == FromStoredAll(list)
      else creds == []
    }

    /** Replaces the cache by what the store shows to this session, or by nothing. */
    method ReloadCredentials(env: Env)
      requires Valid() && pending == None && management == None
      modifies this`credentials, this`storeHealthy
      ensures Valid()
      ensures Shown(credentials, store.rows, uid, env)
      ensures storeHealthy <==> Loads(store.rows, uid, env)
    {
      hide CredentialStore.Valid, CountsOk, Agree, OwnersOk, PinOk, CursorsOk, PendingOk, TokenOk, Lists,
           FaithfulReloads,
           CanLoad, VisibleIds;
      var list := store.Load(uid, env.keyReadable, env.loadFault);
      if list.Some? {
        LoadEstablishes(list.value, store.rows, uid);
        LoadedCountsOk(released, usedIds, credentials, store.rows, FromStoredAll(list.value));
        credentials, storeHealthy := FromStoredAll(list.value), true;
      } else {
        NoCredentialsOk(released, usedIds, credentials, store.rows);
        credentials, storeHealthy := [], false;
      }
      NoCursorsOk(credentials, uid);
    }

    // ---------------------------------------------------- the PIN/UV token

    /** A pinUvAuthParam for protocol 2 is presented. */
    static predicate Presents(auth: PinAuth, env: Env) {
      env.sessionToken && auth.protocol == Some(2) && auth.param.Some?
    }

    /** No pinUvAuthParam is presented, which a command may tolerate. */
    static predicate PresentsNone(auth: PinAuth, env: Env) {
      env.sessionToken && auth.protocol.None? && auth.param.None?
    }

    /** The presented parameter is the live token's MAC over the message, and the token
        allows the operation now. */
    static predicate Verifies(t: Option<Token>, check: TokenCheck, env: Env) {
      && Presents(check.auth, env) && t.Some? && Allows(t.value, check.permission, check.rpId, env.now)
      && (check.auth.param.value.length == 16 || check.auth.param.value.length == 32)
      && check.auth.param.value.tag == Mac(t.value.value, check.message)
    }

    /** A command gets to its check, if it has one, and is not stopped by it. */
    static predicate PassesCheck(t: Option<Token>, check: Option<TokenCheck>, env: Env) {
      check.Some? && (PresentsNone(check.value.auth, env) || Verifies(t, check.value, env))
    }

    /** The user is verified by the check. */
    static predicate VerifiedBy(t: Option<Token>, check: Option<TokenCheck>, env: Env) {
      check.Some? && Verifies(t, check.value, env)
    }

    /** What a check leaves in the history: one acceptance exactly when it verifies, and a
        drop exactly when a presented parameter does not. */
    static function CheckEvents(t: Option<Token>, check: Option<TokenCheck>, env: Env): seq<TokenEvent> {
      if check.None? then []
      else if Verifies(t, check.value, env) then
        [Accepted(t.value.value, check.value.permission, check.value.rpId, check.value.message, env.now)]
      else if Presents(check.value.auth, env) then [Dropped(FailedCheck)]
      else []
    }

    static function CheckedToken(t: Option<Token>, check: Option<TokenCheck>, env: Env): Option<Token> {
      if check.Some? && Presents(check.value.auth, env) && !Verifies(t, check.value, env) then None else t
    }

    static lemma NoCheck(t: Option<Token>, env: Env)
      ensures CheckEvents(t, None, env) == [] && CheckedToken(t, None, env) == t
      ensures !PassesCheck(t, None, env) && !VerifiedBy(t, None, env)
    {
    }

    static predicate Approved(env: Env) {
      env.sessionBefore && env.approved && env.sessionAfter
    }

    /** Checks a pinUvAuthParam. It is accepted exactly when the live token allows the
        operation now and the parameter is its MAC over the message. */
    method ValidatePinUvAuth(check: TokenCheck, env: Env) returns (r: Result<bool>)
      requires Valid() && clock <= env.now
      modifies this`token, this`tokenLog, this`clock
      ensures Valid() && clock == env.now
      ensures r == Ok(true) <==> Verifies(old(token), check, env)
      ensures r == Ok(false) <==> PresentsNone(check.auth, env)
      ensures r.Ok? <==> PassesCheck(old(token), Some(check), env)
      ensures r.Err? && Presents(check.auth, env) ==> r == Err(PinAuthInvalid)
      ensures token == CheckedToken(old(token), Some(check), env)
      ensures tokenLog == old(tokenLog) + CheckEvents(old(token), Some(check), env)
    {
      hide CredentialStore.Valid, CountsOk, Agree, OwnersOk, PinOk, CursorsOk, PendingOk, TokenOk, FaithfulReloads;
      TokenLater(tokenLog, token, clock, env.now);
      clock := env.now;
      if !env.sessionToken {
        return Err(OperationDenied);
      }
      if check.auth.protocol.None? && check.auth.param.None? {
        return Ok(false);
      }
      if check.auth.protocol.None? || check.auth.protocol.value < 0 {
        return Err(MissingParameter);
      }
      if check.auth.protocol.value != 2 {
        return Err(InvalidParameter);
      }
      if check.auth.param.None? {
        return Err(MissingParameter);
      }
      TokenIssuedInPast(tokenLog, token, clock);
      if token.None? || Elapsed(env.now, token.value.issuedAt) > TOKEN_LIFETIME
         || check.permission !in token.value.permissions
         || (token.value.rpId.Some? && token.value.rpId != check.rpId)
         || (check.auth.param.value.length != 16 && check.auth.param.value.length != 32)
         || check.auth.param.value.tag != Mac(token.value.value, check.message)
      {
        TokenDroppedOk(tokenLog, token, clock, FailedCheck);
        token, tokenLog := None, tokenLog + [Dropped(FailedCheck)];
        return Err(PinAuthInvalid);
      }
      TokenAcceptedOk(tokenLog, token.value, clock, check.permission, check.rpId, check.message, env.now);
      tokenLog := tokenLog + [Accepted(token.value.value, check.permission, check.rpId, check.message, env.now)];
      r := Ok(true);
    }

    /** Hands out a new token with these permissions. */
    method IssueToken(permissions: set<Permission>, rpId: Option<Bytes>, env: Env) returns (r: Result<Response>)
      requires Valid() && clock <= env.later
      requires GetAssertionPermission in permissions ==> rpId.Some?
      modifies this`token, this`tokenLog, this`clock
      ensures Valid() && clock == env.later
      ensures r == Ok(TokenGranted(env.newToken))
      ensures token == Some(Token(env.newToken, permissions, rpId, env.later))
      ensures tokenLog == old(tokenLog) + [Issued(token.value)]
    {
      hide CredentialStore.Valid, CountsOk, Agree, OwnersOk, PinOk, CursorsOk, PendingOk, TokenOk, FaithfulReloads;
      var t := Token(env.newToken, permissions, rpId, env.later);
      TokenIssuedOk(tokenLog, token, clock, t);
      token, tokenLog, clock := Some(t), tokenLog + [Issued(t)], env.later;
      r := Ok(TokenGranted(env.newToken));
    }

    method DropToken(ghost reason: DropReason)
      requires Valid()
      modifies this`token, this`tokenLog
      ensures Valid() && token == None && tokenLog == old(tokenLog) + [Dropped(reason)]
    {
      hide CredentialStore.Valid, CountsOk, Agree, OwnersOk, PinOk, CursorsOk, PendingOk, TokenOk, FaithfulReloads;
      TokenDroppedOk(tokenLog, token, clock, reason);
      token, tokenLog := None, tokenLog + [Dropped(reason)];
    }

    // -------------------------------------------------------------- the PIN

    /** Compares a PIN hash with the verifier and keeps the retry counter. */
    method AuthenticatePin(pinHash: Bytes, env: Env) returns (r: Result<()>)
      requires Valid()
      modifies this`clientPin, this`pinLog, this`pinHealthy, store`pin, store`pinMac
      ensures Valid()
      ensures !env.pinFault ==> pinHealthy == old(pinHealthy)
      ensures |pinHash| != 16 ==> r == Err(InvalidParameter)
      ensures |pinHash| == 16 && old(clientPin).None? ==> r == Err(PinNotSet)
      ensures |pinHash| != 16 || old(clientPin).None? || old(clientPin).value.retries == 0 ==>
                r.Err? && clientPin == old(clientPin) && pinLog == old(pinLog) && pinHealthy == old(pinHealthy)
                && store.pin == old(store.pin)
      ensures |pinHash| == 16 && old(clientPin).Some? && old(clientPin).value.retries == 0 ==> r == Err(PinBlocked)
      ensures |pinHash| == 16 && old(clientPin).Some? && old(clientPin).value.retries > 0 ==>
                var pin := old(clientPin).value;
                if pbkdf2(pin.salt, pinHash) == pin.verifier then
                  && pinLog == old(pinLog) + [PinRight] && clientPin == Some(pin.(retries := PIN_RETRIES))
                  && (r.Ok? <==> pin.retries == PIN_RETRIES || !env.pinFault)
                else
                  && pinLog == old(pinLog) + [PinWrong] && clientPin == Some(pin.(retries := pin.retries - 1))
                  && r == Err(if env.pinFault then OperationDenied
                              else if pin.retries == 1 then PinBlocked else PinInvalid)
    {
      hide CredentialStore.Valid, CountsOk, Agree, OwnersOk, PinOk, CursorsOk, PendingOk, TokenOk, NeverGuessedLate,
           WrongSince, FaithfulReloads;
      if |pinHash| != 16 {
        return Err(InvalidParameter);
      }
      if clientPin.None? {
        return Err(PinNotSet);
      }
      if clientPin.value.retries == 0 {
        return Err(PinBlocked);
      }
      var pin := clientPin.value;
      if pbkdf2(pin.salt, pinHash) != pin.verifier {
        r := PinMismatch(env);
      } else {
        r := PinMatch(env);
      }
    }

    /** A wrong PIN costs one retry. */
    method PinMismatch(env: Env) returns (r: Result<()>)
      requires Valid() && clientPin.Some? && clientPin.value.retries > 0
      modifies this`clientPin, this`pinLog, this`pinHealthy, store`pin, store`pinMac
      ensures Valid()
      ensures !env.pinFault ==> pinHealthy == old(pinHealthy)
      ensures pinLog == old(pinLog) + [PinWrong]
      ensures var pin := old(clientPin).value;
              && clientPin == Some(pin.(retries := pin.retries - 1))
              && r == Err(if env.pinFault then OperationDenied
                          else if pin.retries == 1 then PinBlocked else PinInvalid)
    {
      hide CredentialStore.Valid, CountsOk, Agree, OwnersOk, CursorsOk, PendingOk, TokenOk, NeverGuessedLate,
           WrongSince, FaithfulReloads;
      PinLogExtends(pinLog, PinWrong);
      pinLog := pinLog + [PinWrong];
      clientPin := Some(clientPin.value.(retries := clientPin.value.retries - 1));
      var ok := PersistPin(env.pinFault);
      if !ok {
        return Err(OperationDenied);
      }
      return Err(if clientPin.value.retries == 0 then PinBlocked else PinInvalid);
    }

    /** A right PIN restores the retries. */
    method PinMatch(env: Env) returns (r: Result<()>)
      requires Valid() && clientPin.Some? && clientPin.value.retries > 0
      modifies this`clientPin, this`pinLog, this`pinHealthy, store`pin, store`pinMac
      ensures Valid()
      ensures !env.pinFault ==> pinHealthy == old(pinHealthy)
      ensures pinLog == old(pinLog) + [PinRight]
      ensures var pin := old(clientPin).value;
              && clientPin == Some(pin.(retries := PIN_RETRIES))
              && (r.Ok? <==> pin.retries == PIN_RETRIES || !env.pinFault)
    {
      hide CredentialStore.Valid, CountsOk, Agree, OwnersOk, CursorsOk, PendingOk, TokenOk, NeverGuessedLate,
           WrongSince, FaithfulReloads;
      PinLogExtends(pinLog, PinRight);
      pinLog := pinLog + [PinRight];
      if clientPin.value.retries != PIN_RETRIES {
        clientPin := Some(clientPin.value.(retries := PIN_RETRIES));
        var ok := PersistPin(env.pinFault);
        if !ok {
          return Err(OperationDenied);
        }
      }
      r := Ok(());
    }

    /** Writes the PIN state in memory to the store. */
    method PersistPin(fault: bool) returns (ok: bool)
      requires store.Valid() && clientPin.Some? && PinStorable(clientPin.value)
      modifies this`pinHealthy, store`pin, store`pinMac
      ensures store.Valid() && ok == !fault
      ensures store.pin == if ok then clientPin else old(store.pin)
      ensures pinHealthy ==> old(pinHealthy) && ok
      ensures ok ==> pinHealthy == old(pinHealthy)
    {
      ok := store.SavePin(clientPin.value, fault);
      if !ok {
        pinHealthy := false;
      }
    }

    method KeysError(key: KeyParam) returns (e: Option<ErrorStatus>)
      ensures e.None? <==> key.GoodKey? && keyAgreement
    {
      match key {
        case NoKey => return Some(MissingParameter);
        case BadKey => return Some(InvalidParameter);
        case GoodKey => return if keyAgreement then None else Some(InvalidCommand);
      }
    }

    /** The state for a new PIN: a salted verifier of the first half of its hash. */
    function NewPinState(plain: Bytes, env: Env): StoredPin {
      var hash := sha256(plain);
      StoredPin(env.newSalt, pbkdf2(env.newSalt, hash[..Min16(hash)]), PIN_RETRIES)
    }

    /** Adopts a new PIN once it has been persisted. */
    method AdoptPin(plain: Bytes, env: Env) returns (r: Result<Response>)
      requires Valid()
      modifies this`clientPin, this`pinLog, this`pinHealthy, store`pin, store`pinMac
      ensures Valid()
      ensures r.Ok? <==> !env.pinFault && PinStorable(NewPinState(plain, env))
      ensures r.Ok? ==> clientPin == Some(NewPinState(plain, env)) && store.pin == clientPin
                        && pinLog == old(pinLog) + [PinSet] && r.value == Done
      ensures r.Err? ==> clientPin == old(clientPin) && pinLog == old(pinLog) && store.pin == old(store.pin)
      ensures pinHealthy == old(pinHealthy)
    {
      hide CredentialStore.Valid, CountsOk, Agree, OwnersOk, CursorsOk, PendingOk, TokenOk, NeverGuessedLate,
           WrongSince, FaithfulReloads;
      var state := NewPinState(plain, env);
      var ok := store.SavePin(state, env.pinFault);
      if !ok {
        return Err(OperationDenied);
      }
      PinLogExtends(pinLog, PinSet);
      clientPin, pinLog := Some(state), pinLog + [PinSet];
      r := Ok(Done);
    }

    // ----------------------------------------------------------- assertions

    /** Would the TPM sign for this credential? An unknown policy version is refused. */
    predicate Signable(c: Credential, env: Env) {
      daemon && env.tpmOk && (c.policy.Some? ==> c.policy.value.policyVersion == 1)
    }

    /** Signs for one credential, persists its next count, and only then releases it. */
    method SignAndRelease(k: nat, verified: bool, hash: Bytes, total: nat, env: Env) returns (r: Result<Response>)
      requires Valid() && k < |credentials|
      modifies this`credentials, this`released, store`rows
      ensures Valid()
      ensures var c := old(credentials)[k];
              && (r.Ok? <==> Signable(c, env) && !env.storeFault && c.id in old(store.rows))
              && (r.Ok? ==>
                    && r.value == Asserted(AssertionFor(c, verified, hash, total))
                    && released == old(released) + [Release(c.id, NextCount(c.signCount))]
                    && store.rows == Counted(old(store.rows), c.id, NextCount(c.signCount))
                    && credentials == old(credentials)[k := c.(signCount := NextCount(c.signCount))])
              && (r.Err? ==> r.status == OperationDenied && credentials == old(credentials)
                             && released == old(released) && store.rows == old(store.rows))
      ensures Sound(old(store.rows), store.hmacKey) ==> Sound(store.rows, store.hmacKey)
    {
      hide CredentialStore.Valid, CountsOk, Agree, OwnersOk, PinOk, CursorsOk, PendingOk, TokenOk, FaithfulReloads,
           Sound;
      var c := credentials[k];
      var count := NextCount(c.signCount);
      if !Signable(c, env) {
        return Err(OperationDenied);
      }
      ReleaseOk(k);
      if c.id in store.rows {
        CountedSound(store.rows, c.id, count, store.hmacKey);
      }
      var ok := store.UpdateSignCount(c.id, count, env.storeFault);
      if !ok {
        return Err(OperationDenied);
      }
      credentials := credentials[k := c.(signCount := count)];
      released := released + [Release(c.id, count)];
      r := Ok(Asserted(AssertionFor(c, verified, hash, total)));
    }

    static lemma CountedSound(rows: Rows, id: Bytes, count: u32, hmacKey: Bytes)
      requires id in rows
      ensures Sound(rows, hmacKey) ==> Sound(Counted(rows, id, count), hmacKey)
    {
      hide Sound;
      SameIdentitySound(rows, Counted(rows, id, count), hmacKey);
    }

    /** What a release leaves intact. */
    lemma ReleaseOk(k: nat)
      requires Valid() && k < |credentials|
      ensures var c := credentials[k];
              var n := NextCount(c.signCount);
              var creds := credentials[k := c.(signCount := n)];
              && OwnersOk(creds, uid) && CursorsOk(management, creds)
              && (pendingIntact ==> PendingOk(pending, creds))
              && (c.id in store.rows ==>
                    CountsOk(released + [Release(c.id, n)], usedIds, creds, Counted(store.rows, c.id, n)))
              && (storeHealthy ==> c.id in store.rows && Agree(creds, Counted(store.rows, c.id, n), uid))
    {
      var c := credentials[k];
      var n := NextCount(c.signCount);
      SameShapeKeepsCursors(credentials, credentials[k := c.(signCount := n)], management, pending, uid);
      if c.id in store.rows {
        ReleaseKeepsCounts(released, usedIds, credentials, store.rows, k);
      }
      if storeHealthy {
        CountKeepsAgreement(credentials, store.rows, uid, k, n);
      }
    }

    /** The assertions left over after the first one. */
    static function Remaining(indexes: seq<nat>, rpId: Bytes, hash: Bytes, verified: bool, uid: Option<u32>, at: nat):
      Option<PendingAssertion>
    {
      if |indexes| <= 1 then None
      else Some(PendingAssertion(rpId, hash, indexes[1..], |indexes|, at, uid, verified))
    }

    /** The token check of a getAssertion that gets that far. */
    static function GetCheck(get: Option<GetAssertionRequest>): Option<TokenCheck> {
      if get.Some? && get.value.rpId.Some? && get.value.clientDataHash.Some? && |get.value.clientDataHash.value| == 32
      then Some(TokenCheck(get.value.auth, get.value.clientDataHash.value, GetAssertionPermission, get.value.rpId))
      else None
    }

    /** The request gets as far as looking for credentials. */
    static predicate Looks(get: Option<GetAssertionRequest>, t: Option<Token>, env: Env) {
      PassesCheck(t, GetCheck(get), env) && DescriptorsOk(get.value.allowList)
    }

    /** The list a request is matched against: with a TPM configured it is read again. */
    ghost predicate Seen(seen: seq<Credential>, get: Option<GetAssertionRequest>, t: Option<Token>,
                         creds: seq<Credential>, rows: Rows, uid: Option<u32>, env: Env)
    {
      if daemon && Looks(get, t, env) then Shown(seen, rows, uid, env) else seen == creds
    }

    /** The user approves a match. */
    static predicate Reaches(get: Option<GetAssertionRequest>, t: Option<Token>, seen: seq<Credential>, env: Env) {
      Looks(get, t, env) && MatchingIndexes(seen, get.value.rpId.value, get.value.allowList) != [] && Approved(env)
    }

    /** authenticatorGetAssertion. `seen` is the credential list the request was matched
        against and `reached` says that the user approved a match. */
    method HandleGetAssertion(get: Option<GetAssertionRequest>, env: Env)
      returns (r: Result<Response>, ghost seen: seq<Credential>, ghost reached: bool, ghost verified: bool)
      requires Valid() && pending == None && management == None && clock <= env.now <= env.later
      modifies this`credentials, this`pending, this`pendingIntact, this`token, this`tokenLog, this`clock,
               this`storeHealthy, this`released, store`rows
      ensures Valid() && clock == env.later
      ensures Seen(seen, get, old(token), old(credentials), old(store.rows), uid, env)
      ensures reached <==> Reaches(get, old(token), seen, env)
      ensures verified == (get.Some? && (get.value.uv || VerifiedBy(old(token), GetCheck(get), env)))
      ensures token == CheckedToken(old(token), GetCheck(get), env)
      ensures tokenLog == old(tokenLog) + CheckEvents(old(token), GetCheck(get), env)
      ensures storeHealthy == if daemon && Looks(get, old(token), env) then Loads(old(store.rows), uid, env)
                              else old(storeHealthy)
      ensures store.rows.Keys == old(store.rows).Keys
      ensures Sound(old(store.rows), store.hmacKey) ==> Sound(store.rows, store.hmacKey)
      ensures reached ==>
                && var rpId, hash := get.value.rpId.value, get.value.clientDataHash.value;
                   var indexes := MatchingIndexes(seen, rpId, get.value.allowList);
                && indexes[0] < |seen|
                && pending == Remaining(indexes, rpId, hash, verified, uid, env.later)
                && var c := seen[indexes[0]];
                && (r.Ok? <==> Signable(c, env) && !env.storeFault && c.id in old(store.rows))
                && (r.Ok? ==>
                      && r.value == Asserted(AssertionFor(c, verified, hash, |indexes|))
                      && released == old(released) + [Release(c.id, NextCount(c.signCount))]
                      && c.id in old(store.rows)
                      && store.rows == Counted(old(store.rows), c.id, NextCount(c.signCount))
                      && credentials == seen[indexes[0] := c.(signCount := NextCount(c.signCount))])
                && (r.Err? ==> r.status == OperationDenied && credentials == seen && released == old(released)
                               && store.rows == old(store.rows))
      ensures ReleasedBy(ToResponse(r), old(released), released, store.rows)
      ensures !reached ==> r.Err? && pending == None && credentials == seen && released == old(released)
                           && store.rows == old(store.rows)
    {
      hide Valid, CredentialStore.Valid, MatchingIndexes, DescriptorsOk, AssertionFor, NextCount, Signable, Counted,
           Verifies, PresentsNone, Presents, Loads, Shown, Sound, Remaining, CheckEvents, CheckedToken, GetCheck;
      NoCheck(token, env);
      seen, reached := credentials, false;
      verified := get.Some? && (get.value.uv || VerifiedBy(token, GetCheck(get), env));
      var error := GetError(get);
      if error.Some? {
        r := Failing(error.value, env);
        return;
      }
      var check := GetCheck(get);
      var auth := ValidatePinUvAuth(check.value, env);
      if auth.Err? {
        r := Failing(auth.status, env);
        return;
      }
      assert auth == if auth.value then Ok(true) else Ok(false);
      if !DescriptorsOk(get.value.allowList) {
        r := Failing(InvalidCbor, env);
        return;
      }
      if daemon {
        ReloadCredentials(env);
      }
      seen := credentials;
      r, reached := GetChecked(get.value, auth.value, env);
    }

    /** What a getAssertion may lack before its token is checked. */
    static function GetError(get: Option<GetAssertionRequest>): (e: Option<ErrorStatus>)
      ensures e.None? <==> GetCheck(get).Some?
      ensures e.None? ==> get.Some? && get.value.rpId.Some? && get.value.clientDataHash.Some?
    {
      if get.None? then Some(InvalidCbor)
      else if get.value.rpId.None? || get.value.clientDataHash.None? then Some(MissingParameter)
      else if |get.value.clientDataHash.value| != 32 then Some(InvalidCbor)
      else None
    }

    /** The rest of a getAssertion, against the credentials in the cache. */
    method GetChecked(get: GetAssertionRequest, token: bool, env: Env) returns (r: Result<Response>, ghost reached: bool)
      requires Valid() && pending == None && clock <= env.later && get.rpId.Some? && get.clientDataHash.Some?
      modifies this`credentials, this`pending, this`pendingIntact, this`clock, this`released, store`rows
      ensures Valid() && clock == env.later && store.rows.Keys == old(store.rows).Keys
      ensures Sound(old(store.rows), store.hmacKey) ==> Sound(store.rows, store.hmacKey)
      ensures ReleasedBy(ToResponse(r), old(released), released, store.rows)
      ensures var indexes := MatchingIndexes(old(credentials), get.rpId.value, get.allowList);
              && (reached <==> indexes != [] && Approved(env))
              && (!reached ==> r.Err? && pending == None && credentials == old(credentials) && released == old(released)
                               && store.rows == old(store.rows))
              && (reached ==>
                    && var verified, hash := get.uv || token, get.clientDataHash.value;
                    && indexes[0] < |old(credentials)|
                    && pending == Remaining(indexes, get.rpId.value, hash, verified, uid, env.later)
                    && var c := old(credentials)[indexes[0]];
                    && (r.Ok? <==> Signable(c, env) && !env.storeFault && c.id in old(store.rows))
                    && (r.Ok? ==>
                          && r.value == Asserted(AssertionFor(c, verified, hash, |indexes|))
                          && released == old(released) + [Release(c.id, NextCount(c.signCount))]
                          && c.id in old(store.rows)
                          && store.rows == Counted(old(store.rows), c.id, NextCount(c.signCount))
                          && credentials == old(credentials)[indexes[0] := c.(signCount := NextCount(c.signCount))])
                    && (r.Err? ==> r.status == OperationDenied && credentials == old(credentials)
                                   && released == old(released) && store.rows == old(store.rows)))
    {
      hide Valid, CredentialStore.Valid, MatchingIndexes, AssertionFor, NextCount, Signable, Counted, Sound, Remaining;
      reached := false;
      var indexes := MatchingIndexes(credentials, get.rpId.value, get.allowList);
      if indexes == [] {
        r := Failing(NoCredentials, env);
        return;
      }
      if !Approved(env) {
        r := Failing(OperationDenied, env);
        return;
      }
      var uv := get.uv || token;
      reached := true;
      MatchingInRange(credentials, get.rpId.value, get.allowList, get.clientDataHash.value, uv, uid, env.later);
      r := AssertFirst(indexes, get.rpId.value, get.clientDataHash.value, uv, env);
    }

    /** Keeps the other matches pending and asserts the first. */
    method AssertFirst(indexes: seq<nat>, rpId: Bytes, hash: Bytes, uv: bool, env: Env) returns (r: Result<Response>)
      requires Valid() && clock <= env.later && indexes != [] && indexes[0] < |credentials|
      requires PendingOk(Remaining(indexes, rpId, hash, uv, uid, env.later), credentials)
      modifies this`credentials, this`pending, this`pendingIntact, this`clock, this`released, store`rows
      ensures Valid() && clock == env.later
      ensures store.rows.Keys == old(store.rows).Keys
      ensures pending == Remaining(indexes, rpId, hash, uv, uid, env.later)
      ensures var c := old(credentials)[indexes[0]];
              && (r.Ok? <==> Signable(c, env) && !env.storeFault && c.id in old(store.rows))
              && (r.Ok? ==>
                    && r.value == Asserted(AssertionFor(c, uv, hash, |indexes|))
                    && released == old(released) + [Release(c.id, NextCount(c.signCount))]
                    && c.id in old(store.rows)
                    && store.rows == Counted(old(store.rows), c.id, NextCount(c.signCount))
                    && credentials == old(credentials)[indexes[0] := c.(signCount := NextCount(c.signCount))])
              && (r.Err? ==> r.status == OperationDenied && credentials == old(credentials) && released == old(released)
                             && store.rows == old(store.rows))
      ensures Sound(old(store.rows), store.hmacKey) ==> Sound(store.rows, store.hmacKey)
      ensures ReleasedBy(ToResponse(r), old(released), released, store.rows)
    {
      hide Valid, CredentialStore.Valid,
           Signable, Remaining, Sound;
      SetPending(Remaining(indexes, rpId, hash, uv, uid, env.later), env);
      r := SignAndRelease(indexes[0], uv, hash, |indexes|, env);
    }

    /** An error after which only time has passed. */
    method Failing(status: ErrorStatus, env: Env) returns (r: Result<Response>)
      requires Valid() && clock <= env.later
      modifies this`clock
      ensures Valid() && clock == env.later && r == Err(status)
    {
      hide CredentialStore.Valid, CountsOk, Agree, OwnersOk, PinOk, CursorsOk, PendingOk, TokenOk, FaithfulReloads;
      TokenLater(tokenLog, token, clock, env.later);
      clock := env.later;
      r := Err(status);
    }

    method SetPending(p: Option<PendingAssertion>, env: Env)
      requires Valid() && PendingOk(p, credentials) && clock <= env.later
      modifies this`pending, this`pendingIntact, this`clock
      ensures Valid() && pending == p && pendingIntact && clock == env.later
    {
      hide CredentialStore.Valid, CountsOk, Agree, OwnersOk, PinOk, CursorsOk, PendingOk, TokenOk, FaithfulReloads;
      TokenLater(tokenLog, token, clock, env.later);
      pending, pendingIntact, clock := p, true, env.later;
    }

    /** The indexes that a match leaves pending point at credentials of that party. */
    static lemma MatchingInRange(creds: seq<Credential>, rpId: Bytes, allowList: Option<seq<Descriptor>>, hash: Bytes,
                                 verified: bool, uid: Option<u32>, at: nat)
      ensures var indexes := MatchingIndexes(creds, rpId, allowList);
              && (forall i :: 0 <= i < |indexes| ==> indexes[i] < |creds|)
              && PendingOk(Remaining(indexes, rpId, hash, verified, uid, at), creds)
    {
      MatchingIsExact(creds, rpId, allowList);
      hide MatchingIndexes;
      var indexes := MatchingIndexes(creds, rpId, allowList);
      forall i | 0 <= i < |indexes|
        ensures indexes[i] < |creds| && creds[indexes[i]].rpId == rpId
      {
        assert indexes[i] in indexes;
      }
    }

    /** What a getNextAssertion answers and leaves. A refused session or a late call drops
        what is pending; a failure of the TPM or the store still consumes one credential; an
        index beyond the list is a panic. */
    ghost predicate NextOutcome(bodyEmpty: bool, env: Env, uid: Option<u32>, p: Option<PendingAssertion>,
                                creds: seq<Credential>, rows: Rows, released: seq<Release>, response: Response,
                                p': Option<PendingAssertion>, creds': seq<Credential>, rows': Rows,
                                released': seq<Release>)
    {
      if !bodyEmpty then
        response == Failed(InvalidCbor) && p' == p && creds' == creds && rows' == rows && released' == released
      else if p.None? || !InTime(p.value, uid, env) || p.value.indexes == [] then
        && response == Failed(if p.Some? && !InTime(p.value, uid, env) then OperationDenied else NoCredentials)
        && p' == None && creds' == creds && rows' == rows && released' == released
      else
        var k := p.value.indexes[0];
        && p' == (if |p.value.indexes| == 1 then None else Some(p.value.(indexes := p.value.indexes[1..])))
        && if k < |creds| && Signable(creds[k], env) && !env.storeFault && creds[k].id in rows then
             var c := creds[k];
             && response == Asserted(AssertionFor(c, p.value.userVerified, p.value.clientDataHash, 0))
             && released' == released + [Release(c.id, NextCount(c.signCount))]
             && rows' == Counted(rows, c.id, NextCount(c.signCount))
             && creds' == creds[k := c.(signCount := NextCount(c.signCount))]
           else
             && response == (if k < |creds| then Failed(OperationDenied) else Panicked)
             && creds' == creds && rows' == rows && released' == released
    }

    /** authenticatorGetNextAssertion. */
    method HandleGetNextAssertion(bodyEmpty: bool, env: Env) returns (r: Result<Response>)
      requires Valid() && clock <= env.now <= env.later
      modifies this`credentials, this`pending, this`pendingIntact, this`clock, this`released, store`rows
      ensures Valid() && clock == env.later
      ensures NextOutcome(bodyEmpty, env, uid, old(pending), old(credentials), old(store.rows), old(released), ToResponse(r),
                          pending, credentials, store.rows, released)
      ensures Sound(old(store.rows), store.hmacKey) ==> Sound(store.rows, store.hmacKey)
      ensures ReleasedBy(ToResponse(r), old(released), released, store.rows)
    {
      hide CredentialStore.Valid, CountsOk, Agree, OwnersOk, PinOk, CursorsOk, PendingOk, TokenOk, FaithfulReloads,
           Sound, Signable;
      if !bodyEmpty {
        r := Failing(InvalidCbor, env);
        return;
      }
      if pending.None? {
        r := Failing(NoCredentials, env);
        return;
      }
      var p := pending.value;
      NothingPendingOk(p, credentials);
      if !InTime(p, uid, env) {
        SetPending(None, env);
        return Err(OperationDenied);
      }
      if p.indexes == [] {
        SetPending(None, env);
        return Err(NoCredentials);
      }
      AdvancePending(env);
      var k := p.indexes[0];
      if k >= |credentials| {
        return Ok(Panicked);
      }
      r := SignAndRelease(k, p.userVerified, p.clientDataHash, 0, env);
    }

    /** Within 30 seconds, in the same and unchanged session. */
    static predicate InTime(p: PendingAssertion, uid: Option<u32>, env: Env) {
      Elapsed(env.now, p.createdAt) <= CURSOR_LIFETIME && p.uid == uid && env.sessionFirst
    }

    static lemma NothingPendingOk(p: PendingAssertion, creds: seq<Credential>)
      ensures PendingOk(None, creds)
      ensures PendingOk(Some(p), creds) && |p.indexes| > 1 ==> PendingOk(Some(p.(indexes := p.indexes[1..])), creds)
    {
    }

    method AdvancePending(env: Env)
      requires Valid() && pending.Some? && pending.value.indexes != [] && clock <= env.later
      modifies this`pending, this`clock
      ensures Valid() && clock == env.later
      ensures pending == (if |old(pending).value.indexes| == 1 then None
                          else Some(old(pending).value.(indexes := old(pending).value.indexes[1..])))
    {
      hide CredentialStore.Valid, CountsOk, Agree, OwnersOk, PinOk, CursorsOk, PendingOk, TokenOk, FaithfulReloads;
      TokenLater(tokenLog, token, clock, env.later);
      clock := env.later;
      NothingPendingOk(pending.value, credentials);
      var rest := pending.value.indexes[1..];
      pending := if rest == [] then None else Some(pending.value.(indexes := rest));
    }

    // --------------------------------------------------------- registration

    /** Writes the whole cache to the store. A failure is only logged. */
    method SaveCredentials(env: Env)
      requires Valid()
      modifies this`storeHealthy, store`rows
      ensures Valid() && storeHealthy == !env.storeFault
      ensures store.rows == SavedRows(credentials, old(store.rows), env)
      ensures uid.Some? && Sound(old(store.rows), store.hmacKey) ==> Sound(store.rows, store.hmacKey)
    {
      hide CredentialStore.Valid, CountsOk, Agree, OwnersOk, PinOk, CursorsOk, PendingOk, TokenOk, FaithfulReloads,
           TableOf, ToStoredAll, DistinctIds, PinStorable, Sound;
      ghost var key := if env.keyReadable then Some(store.hmacKey) else None;
      SaveKeepsCounts(released, usedIds, credentials, store.rows, key);
      SavedOk(released, usedIds, credentials, store.rows, key, uid);
      if uid.Some? {
        SavedSound(released, usedIds, credentials, store.rows, key, uid, store.hmacKey);
      }
      var ok := store.Save(ToStoredAll(credentials), env.keyReadable, env.storeFault);
      storeHealthy := ok;
    }

    static lemma SavedOk(released: seq<Release>, used: set<Bytes>, creds: seq<Credential>, rows: Rows,
                         key: Option<Bytes>, uid: Option<u32>)
      requires CountsOk(released, used, creds, rows) && OwnersOk(creds, uid)
      ensures Agree(creds, TableOf(ToStoredAll(creds), key), uid)
    {
      SaveEstablishesAgreement(creds, key, uid);
    }

    static lemma SavedSound(released: seq<Release>, used: set<Bytes>, creds: seq<Credential>, rows: Rows,
                            key: Option<Bytes>, uid: Option<u32>, hmacKey: Bytes)
      requires CountsOk(released, used, creds, rows) && OwnersOk(creds, uid) && uid.Some?
      requires key.Some? ==> key.value == hmacKey
      ensures Sound(TableOf(ToStoredAll(creds), key), hmacKey)
    {
      SaveKeepsCounts(released, used, creds, rows, key);
      hide CountsOk, Sound;
      TableSound(ToStoredAll(creds), key, hmacKey);
    }

    /** Adds a credential to the cache and saves the cache. */
    method Register(c: Credential, env: Env)
      requires Valid() && pending == None && management == None
      requires c.id !in usedIds && (uid.Some? ==> c.userId == uid)
      modifies this`credentials, this`usedIds, this`storeHealthy, store`rows
      ensures Valid() && credentials == old(credentials) + [c] && usedIds == old(usedIds) + {c.id}
      ensures storeHealthy == !env.storeFault
      ensures store.rows == SavedRows(credentials, old(store.rows), env)
      ensures !env.storeFault ==> c.id in store.rows
      ensures uid.Some? && Sound(old(store.rows), store.hmacKey) ==> Sound(store.rows, store.hmacKey)
    {
      hide CredentialStore.Valid, CountsOk, Agree, OwnersOk, PinOk, CursorsOk, PendingOk, TokenOk, FaithfulReloads,
           Sound;
      RegisterKeepsCounts(released, usedIds, credentials, store.rows, c);
      RegisterKeepsOwners(credentials, c, uid);
      NoCursorsOk(credentials + [c], uid);
      credentials, usedIds, storeHealthy := credentials + [c], usedIds + {c.id}, false;
      SaveCredentials(env);
      if !env.storeFault {
        LastIsSaved(credentials, if env.keyReadable then Some(store.hmacKey) else None, released, usedIds, store.rows);
      }
    }

    static lemma RegisterKeepsOwners(creds: seq<Credential>, c: Credential, uid: Option<u32>)
      requires OwnersOk(creds, uid) && (uid.Some? ==> c.userId == uid)
      ensures OwnersOk(creds + [c], uid)
    {
    }

    static lemma LastIsSaved(creds: seq<Credential>, key: Option<Bytes>, released: seq<Release>, used: set<Bytes>,
                             rows: Rows)
      requires creds != [] && CountsOk(released, used, creds, rows)
      ensures creds[|creds| - 1].id in TableOf(ToStoredAll(creds), key)
    {
      SaveKeepsCounts(released, used, creds, rows, key);
      var list := ToStoredAll(creds);
      TableLookup(list, key, list[|list| - 1].id);
    }

    /** The token check of a makeCredential that gets that far. */
    static function MakeCheck(make: Option<MakeCredentialRequest>): Option<TokenCheck> {
      if && make.Some? && make.value.clientDataHash.Some? && |make.value.clientDataHash.value| == 32
         && make.value.rp.Some? && make.value.user.Some? && make.value.attestationKnown
         && make.value.supportsEs256 == Some(true) && make.value.rp.value.Some? && make.value.user.value.id.Some?
      then Some(TokenCheck(make.value.auth, make.value.clientDataHash.value + make.value.rp.value.value,
                           MakeCredentialPermission, make.value.rp.value))
      else None
    }

    /** The request creates a credential. */
    predicate Registers(make: Option<MakeCredentialRequest>, creds: seq<Credential>, t: Option<Token>, env: Env) {
      && PassesCheck(t, MakeCheck(make), env) && make.value.residentKeyKnown && DescriptorsOk(make.value.excludeList)
      && !Excluded(creds, make.value.rp.value.value, make.value.excludeList)
      && Approved(env) && daemon && env.tpmOk
    }

    /** The credential it creates. */
    static function NewCredential(make: MakeCredentialRequest, uid: Option<u32>, env: Env): Credential
      requires make.rp.Some? && make.rp.value.Some? && make.user.Some? && make.user.value.id.Some?
    {
      Credential(env.newId, make.rp.value.value, make.discoverable, uid, make.user.value.id.value, make.user.value.name,
                 make.user.value.displayName, env.newKey, Some(env.newPolicy.(policyVersion := 1)), env.newRecovery, 0)
    }

    /** authenticatorMakeCredential. */
    method HandleMakeCredential(make: Option<MakeCredentialRequest>, env: Env) returns (r: Result<Response>)
      requires Valid() && pending == None && management == None && clock <= env.now <= env.later
      requires env.newId !in usedIds
      modifies this`credentials, this`usedIds, this`token, this`tokenLog, this`clock, this`storeHealthy, store`rows
      ensures Valid() && clock == env.later
      ensures r.Ok? <==> Registers(make, old(credentials), old(token), env)
      ensures token == CheckedToken(old(token), MakeCheck(make), env)
      ensures tokenLog == old(tokenLog) + CheckEvents(old(token), MakeCheck(make), env)
      ensures uid.Some? && Sound(old(store.rows), store.hmacKey) ==> Sound(store.rows, store.hmacKey)
      ensures r.Err? ==> credentials == old(credentials) && store.rows == old(store.rows)
                         && storeHealthy == old(storeHealthy) && usedIds == old(usedIds)
      ensures r.Ok? ==>
                && usedIds == old(usedIds) + {env.newId}
                && r.value == Registered(env.newId, make.value.uv || VerifiedBy(old(token), MakeCheck(make), env))
                && credentials == old(credentials) + [NewCredential(make.value, uid, env)]
                && store.rows == SavedRows(credentials, old(store.rows), env)
                && storeHealthy == !env.storeFault
                && (!env.storeFault ==> env.newId in store.rows)
    {
      hide Valid, CredentialStore.Valid, MakeCheck, Verifies, PresentsNone, Presents, SavedRows, Sound, CheckEvents,
           CheckedToken,
           Excluded, DescriptorsOk;
      NoCheck(token, env);
      var error := MakeError(make);
      if error.Some? {
        r := Failing(error.value, env);
        return;
      }
      var check := MakeCheck(make);
      var auth := ValidatePinUvAuth(check.value, env);
      if auth.Err? {
        r := Failing(auth.status, env);
        return;
      }
      assert auth == if auth.value then Ok(true) else Ok(false);
      r := MakeChecked(make.value, auth.value, env);
    }

    /** What a makeCredential may lack before its token is checked. */
    static function MakeError(make: Option<MakeCredentialRequest>): (e: Option<ErrorStatus>)
      ensures e.None? <==> MakeCheck(make).Some?
      ensures e.None? ==> make.Some? && make.value.rp.Some? && make.value.rp.value.Some? && make.value.user.Some?
                          && make.value.user.value.id.Some?
    {
      if make.None? then Some(InvalidCbor)
      else
        var request := make.value;
        if request.clientDataHash.None? then Some(MissingParameter)
        else if |request.clientDataHash.value| != 32 then Some(InvalidCbor)
        else if request.rp.None? || request.user.None? || request.supportsEs256.None? then Some(MissingParameter)
        else if !request.attestationKnown then Some(InvalidCbor)
        else if !request.supportsEs256.value then Some(UnsupportedAlgorithm)
        else if request.rp.value.None? || request.user.value.id.None? then Some(MissingParameter)
        else None
    }

    /** The rest of a makeCredential. */
    method MakeChecked(make: MakeCredentialRequest, verified: bool, env: Env) returns (r: Result<Response>)
      requires Valid() && pending == None && management == None && clock <= env.later && env.newId !in usedIds
      requires make.rp.Some? && make.rp.value.Some? && make.user.Some? && make.user.value.id.Some?
      modifies this`credentials, this`usedIds, this`clock, this`storeHealthy, store`rows
      ensures Valid() && clock == env.later
      ensures r.Ok? <==> && make.residentKeyKnown && DescriptorsOk(make.excludeList)
                         && !Excluded(old(credentials), make.rp.value.value, make.excludeList)
                         && Approved(env) && daemon && env.tpmOk
      ensures uid.Some? && Sound(old(store.rows), store.hmacKey) ==> Sound(store.rows, store.hmacKey)
      ensures r.Err? ==> credentials == old(credentials) && store.rows == old(store.rows)
                         && storeHealthy == old(storeHealthy) && usedIds == old(usedIds)
      ensures r.Ok? ==>
                && usedIds == old(usedIds) + {env.newId} && r.value == Registered(env.newId, make.uv || verified)
                && credentials == old(credentials) + [NewCredential(make, uid, env)]
                && store.rows == SavedRows(credentials, old(store.rows), env)
                && storeHealthy == !env.storeFault && (!env.storeFault ==> env.newId in store.rows)
    {
      hide Valid, CredentialStore.Valid, Excluded, DescriptorsOk, SavedRows, Sound;
      if !make.residentKeyKnown || !DescriptorsOk(make.excludeList) {
        r := Failing(InvalidCbor, env);
        return;
      }
      if Excluded(credentials, make.rp.value.value, make.excludeList) {
        r := Failing(CredentialExcluded, env);
        return;
      }
      if !Approved(env) || !daemon || !env.tpmOk {
        r := Failing(OperationDenied, env);
        return;
      }
      var _ := Failing(OperationDenied, env);
      Register(NewCredential(make, uid, env), env);
      r := Ok(Registered(env.newId, verified || make.uv));
    }

    // ------------------------------------------------- credential management

    /** Forgets an enumeration that is over 30 seconds old or of another session. */
    method ExpireManagement(env: Env)
      requires Valid()
      modifies this`management
      ensures Valid()
      ensures management == if old(management).Some? && ManagementLive(old(management).value, uid, env)
                            then old(management) else None
    {
      hide CredentialStore.Valid, CountsOk, Agree, OwnersOk, PinOk, CursorsOk, PendingOk, TokenOk, FaithfulReloads;
      NoCursorsOk(credentials, uid);
      if management.Some? && (Elapsed(env.now, management.value.createdAt) > CURSOR_LIFETIME
                              || management.value.uid != uid)
      {
        management := None;
      }
    }

    static predicate ManagementLive(m: ManagementState, uid: Option<u32>, env: Env) {
      Elapsed(env.now, m.createdAt) <= CURSOR_LIFETIME && m.uid == uid
    }

    function RpEntryOf(c: Credential, total: Option<nat>): Response {
      RpEntry(c.rpId, sha256(c.rpId), total)
    }

    method EnumerateRpsBegin(env: Env) returns (r: Result<Response>)
      requires Valid()
      modifies this`management
      ensures Valid()
      ensures var rps := RpIndexes(credentials);
              if rps == [] then r == Err(NoCredentials) && management == old(management)
              else && rps[0] < |credentials| && r == Ok(RpEntryOf(credentials[rps[0]], Some(|rps|)))
                   && management == Some(ManagementState(rps, 1, [], 0, uid, env.later))
    {
      hide CredentialStore.Valid, CountsOk, Agree, OwnersOk, PinOk, PendingOk, TokenOk, FaithfulReloads, RpIndexes;
      var rps := CollectRpIndexes(credentials);
      RpIndexesExact(credentials);
      if rps == [] {
        return Err(NoCredentials);
      }
      management := Some(ManagementState(rps, 1, [], 0, uid, env.later));
      r := Ok(RpEntryOf(credentials[rps[0]], Some(|rps|)));
    }

    method EnumerateRpsNext() returns (r: Result<Response>)
      requires Valid()
      modifies this`management
      ensures Valid()
      ensures var m := old(management);
              if m.None? || m.value.rpPosition >= |m.value.rpIndexes| then r == Err(NoCredentials) && management == m
              else var k := m.value.rpIndexes[m.value.rpPosition];
                   && k < |credentials| && credentials[k].discoverable && r == Ok(RpEntryOf(credentials[k], None))
                   && management == Some(m.value.(rpPosition := m.value.rpPosition + 1))
    {
      hide CredentialStore.Valid, CountsOk, Agree, OwnersOk, PinOk, PendingOk, TokenOk, FaithfulReloads;
      if management.None? || management.value.rpPosition >= |management.value.rpIndexes| {
        return Err(NoCredentials);
      }
      var k := management.value.rpIndexes[management.value.rpPosition];
      management := Some(management.value.(rpPosition := management.value.rpPosition + 1));
      r := Ok(RpEntryOf(credentials[k], None));
    }

    method EnumerateCredentialsBegin(params: Option<seq<Cbor.Entry>>, env: Env) returns (r: Result<Response>)
      requires Valid()
      modifies this`management
      ensures Valid()
      ensures params.None? || MapBytes(params.value, Cbor.Integer(1)).None? ==> r == Err(MissingParameter)
      ensures r.Err? ==> management == old(management)
      ensures params.Some? && MapBytes(params.value, Cbor.Integer(1)).Some? ==>
                var rpHash := MapBytes(params.value, Cbor.Integer(1)).value;
                var indexes := HashIndexes(credentials, sha256, rpHash);
                if |rpHash| != 32 then r == Err(InvalidParameter)
                else if indexes == [] then r == Err(NoCredentials)
                else && indexes[0] < |credentials|
                     && r == Ok(CredentialEntry(credentials[indexes[0]], Some(|indexes|)))
                     && management == Some(ManagementState([], 0, indexes, 1, uid, env.later))
    {
      hide CredentialStore.Valid, CountsOk, Agree, OwnersOk, PinOk, PendingOk, TokenOk, FaithfulReloads, HashIndexes;
      if params.None? {
        return Err(MissingParameter);
      }
      var rpHash := MapBytes(params.value, Cbor.Integer(1));
      if rpHash.None? {
        return Err(MissingParameter);
      }
      if |rpHash.value| != 32 {
        return Err(InvalidParameter);
      }
      var indexes := CollectHashIndexes(credentials, sha256, rpHash.value);
      HashIndexesExact(credentials, sha256, rpHash.value);
      if indexes == [] {
        return Err(NoCredentials);
      }
      management := Some(ManagementState([], 0, indexes, 1, uid, env.later));
      r := Ok(CredentialEntry(credentials[indexes[0]], Some(|indexes|)));
    }

    method EnumerateCredentialsNext() returns (r: Result<Response>)
      requires Valid()
      modifies this`management
      ensures Valid()
      ensures var m := old(management);
              if m.None? || m.value.credentialPosition >= |m.value.credentialIndexes|
              then r == Err(NoCredentials) && management == m
              else var k := m.value.credentialIndexes[m.value.credentialPosition];
                   && k < |credentials| && credentials[k].discoverable
                   && r == Ok(CredentialEntry(credentials[k], None))
                   && management == Some(m.value.(credentialPosition := m.value.credentialPosition + 1))
    {
      hide CredentialStore.Valid, CountsOk, Agree, OwnersOk, PinOk, PendingOk, TokenOk, FaithfulReloads;
      if management.None? || management.value.credentialPosition >= |management.value.credentialIndexes| {
        return Err(NoCredentials);
      }
      var k := management.value.credentialIndexes[management.value.credentialPosition];
      management := Some(management.value.(credentialPosition := management.value.credentialPosition + 1));
      r := Ok(CredentialEntry(credentials[k], None));
    }

    /** Deletes a discoverable credential from the store, then from the cache. The pending
        assertion, if any, keeps its indexes although they have shifted. */
    method DeleteCredential(params: Option<seq<Cbor.Entry>>, env: Env) returns (r: Result<Response>)
      requires Valid()
      modifies this`credentials, this`management, this`pendingIntact, store`rows
      ensures Valid()
      ensures r.Err? ==> management == old(management) && pendingIntact == old(pendingIntact)
      ensures r.Ok? ==> management == None
      ensures Deletion(params, env, old(credentials), old(store.rows), r, credentials, store.rows)
      ensures uid.Some? && Sound(old(store.rows), store.hmacKey) ==> Sound(store.rows, store.hmacKey)
    {
      hide CredentialStore.Valid, CountsOk, Agree, OwnersOk, PinOk, CursorsOk, PendingOk, TokenOk, FaithfulReloads,
           Sound;
      var named := NamedId(params);
      if named.Err? {
        return Err(named.status);
      }
      var k := PositionOf(credentials, named.value);
      if k == |credentials| {
        return Err(NoCredentials);
      }
      DeleteOk(k);
      DeletedSound(store.rows, named.value, store.hmacKey);
      var ok := store.Delete(named.value, env.storeFault);
      if !ok {
        return Err(OperationDenied);
      }
      credentials, management := Without(credentials, k), None;
      pendingIntact := pending.None?;
      NoCursorsOk(credentials, uid);
      r := Ok(Done);
    }

    /** A deletion removes the named credential from cache and store, or fails and changes
        neither. */
    static ghost predicate Deletion(params: Option<seq<Cbor.Entry>>, env: Env, creds: seq<Credential>, rows: Rows,
                                    r: Result<Response>, creds': seq<Credential>, rows': Rows)
    {
      if NamedId(params).Err? then r == Err(NamedId(params).status) && creds' == creds && rows' == rows
      else
        var id := NamedId(params).value;
        var k := PositionOf(creds, id);
        if k < |creds| && !env.storeFault && id in rows then
          r == Ok(Done) && creds' == Without(creds, k) && rows' == rows - {id}
        else
          r == Err(if k == |creds| then NoCredentials else OperationDenied) && creds' == creds && rows' == rows
    }

    static lemma DeletedSound(rows: Rows, id: Bytes, hmacKey: Bytes)
      ensures Sound(rows, hmacKey) ==> Sound(rows - {id}, hmacKey)
    {
      hide Sound;
      SameIdentitySound(rows, rows - {id}, hmacKey);
    }

    lemma DeleteOk(k: nat)
      requires Valid() && k < |credentials|
      ensures CountsOk(released, usedIds, Without(credentials, k), store.rows - {credentials[k].id})
      ensures OwnersOk(Without(credentials, k), uid)
      ensures storeHealthy ==> Agree(Without(credentials, k), store.rows - {credentials[k].id}, uid)
    {
      DeleteKeepsCounts(released, usedIds, credentials, store.rows, k);
      WithoutKeepsOwners(credentials, k, uid);
      if storeHealthy {
        DeleteKeepsAgreement(credentials, store.rows, uid, k);
      }
    }

    /** Changes the user data of a discoverable credential and saves the cache. */
    method UpdateUserInformation(params: Option<seq<Cbor.Entry>>, env: Env) returns (r: Result<Response>)
      requires Valid()
      modifies this`credentials, this`management, this`storeHealthy, store`rows
      ensures Valid()
      ensures r.Err? ==> management == old(management) && storeHealthy == old(storeHealthy)
      ensures r.Ok? ==> management == None && storeHealthy == !env.storeFault
      ensures UserUpdate(params, env, old(credentials), old(store.rows), r, credentials, store.rows)
      ensures uid.Some? && Sound(old(store.rows), store.hmacKey) ==> Sound(store.rows, store.hmacKey)
    {
      hide CredentialStore.Valid, CountsOk, Agree, OwnersOk, PinOk, CursorsOk, PendingOk, TokenOk, FaithfulReloads,
           Sound;
      var named := NamedId(params);
      if named.Err? {
        return Err(named.status);
      }
      var user := MapMap(params.value, Cbor.Integer(3));
      if user.None? {
        return Err(MissingParameter);
      }
      var k := PositionOf(credentials, named.value);
      if k == |credentials| {
        return Err(NoCredentials);
      }
      ReplaceAndSave(k, UpdatedUser(credentials[k], user.value), env);
      r := Ok(Done);
    }

    /** An update changes the named credential's user data in the cache and, unless the save
        fails, writes the whole cache to the store. */
    ghost predicate UserUpdate(params: Option<seq<Cbor.Entry>>, env: Env, creds: seq<Credential>, rows: Rows,
                               r: Result<Response>, creds': seq<Credential>, rows': Rows)
    {
      if NamedId(params).Err? || MapMap(params.value, Cbor.Integer(3)).None? then
        r == Err(MissingParameter) && creds' == creds && rows' == rows
      else
        var k := PositionOf(creds, NamedId(params).value);
        if k == |creds| then r == Err(NoCredentials) && creds' == creds && rows' == rows
        else
          && r == Ok(Done)
          && creds' == creds[k := UpdatedUser(creds[k], MapMap(params.value, Cbor.Integer(3)).value)]
          && rows' == SavedRows(creds', rows, env)
    }

    /** The table after a save of these credentials. */
    function SavedRows(creds: seq<Credential>, rows: Rows, env: Env): Rows {
      if env.storeFault then rows
      else TableOf(ToStoredAll(creds), if env.keyReadable then Some(store.hmacKey) else None)
    }

    method ReplaceAndSave(k: nat, c: Credential, env: Env)
      requires Valid() && k < |credentials|
      requires c.id == credentials[k].id && c.rpId == credentials[k].rpId && c.userId == credentials[k].userId
      requires c.discoverable == credentials[k].discoverable && c.signCount == credentials[k].signCount
      modifies this`credentials, this`management, this`storeHealthy, store`rows
      ensures Valid() && credentials == old(credentials)[k := c] && management == None
      ensures storeHealthy == !env.storeFault && store.rows == SavedRows(credentials, old(store.rows), env)
      ensures uid.Some? && Sound(old(store.rows), store.hmacKey) ==> Sound(store.rows, store.hmacKey)
    {
      hide CredentialStore.Valid, CountsOk, Agree, OwnersOk, PinOk, CursorsOk, PendingOk, TokenOk, FaithfulReloads,
           Sound;
      UpdateOk(k, c);
      NoCursorsOk(credentials[k := c], uid);
      credentials, storeHealthy, management := credentials[k := c], false, None;
      SaveCredentials(env);
    }

    lemma UpdateOk(k: nat, c: Credential)
      requires Valid() && k < |credentials|
      requires c.id == credentials[k].id && c.rpId == credentials[k].rpId && c.userId == credentials[k].userId
      requires c.discoverable == credentials[k].discoverable && c.signCount == credentials[k].signCount
      ensures var creds := credentials[k := c];
              && CountsOk(released, usedIds, creds, store.rows) && OwnersOk(creds, uid)
              && CursorsOk(management, creds) && (pendingIntact ==> PendingOk(pending, creds))
    {
      var creds := credentials[k := c];
      SameShapeKeepsCursors(credentials, creds, management, pending, uid);
      forall i | 0 <= i < |creds|
        ensures creds[i].id in usedIds && FromEither(creds[i], credentials, store.rows)
      {
        assert creds[i].id == credentials[i].id && creds[i].signCount == credentials[i].signCount;
      }
      SubsetKeepsCounts(released, usedIds, credentials, store.rows, creds, store.rows);
    }

    /** authenticatorCredentialManagement. The result of a token check other than an error
        is not looked at. */
    method HandleManagement(manage: Option<ManagementRequest>, env: Env) returns (r: Result<Response>)
      requires Valid() && clock <= env.now <= env.later
      modifies this`credentials, this`management, this`pendingIntact, this`token, this`tokenLog, this`clock,
               this`storeHealthy, store`rows
      ensures Valid() && clock == env.later
      ensures token == CheckedToken(old(token), ManageCheck(manage, clientPin, env), env)
      ensures tokenLog == old(tokenLog) + CheckEvents(old(token), ManageCheck(manage, clientPin, env), env)
      ensures old(storeHealthy) && !env.storeFault ==> storeHealthy
      ensures uid.Some? && Sound(old(store.rows), store.hmacKey) ==> Sound(store.rows, store.hmacKey)
      ensures if Admits(manage, clientPin, old(token), env)
              then Managed(manage.value, env, uid, old(credentials), old(store.rows), old(management), r, credentials,
                           store.rows, management)
              else r.Err? && credentials == old(credentials) && store.rows == old(store.rows)
                   && management == old(management)
      ensures manage.Some? && manage.value.subCommand.Some? && 1 <= manage.value.subCommand.value <= 5 ==>
                storeHealthy == old(storeHealthy) && pendingIntact == old(pendingIntact)
      ensures r.Ok? ==> !r.value.Asserted? && !r.value.Failed?
    {
      hide Valid, CredentialStore.Valid, RpIndexes, HashIndexes, DiscoverableIndexes, Canonical.ManagementAuthMessage,
           Verifies, Presents, PresentsNone, Deletion, UserUpdate, Enumeration, Sound;
      if !env.sessionFirst {
        r := Failing(OperationDenied, env);
        return;
      }
      if manage.None? {
        r := Failing(InvalidCbor, env);
        return;
      }
      var request := manage.value;
      if request.subCommand.None? {
        r := Failing(MissingParameter, env);
        return;
      }
      if clientPin.None? {
        r := Failing(PinNotSet, env);
        return;
      }
      var message := Canonical.ManagementAuthMessage(request.subCommand.value, request.params);
      var auth := ValidatePinUvAuth(TokenCheck(request.auth, message, ManagementPermission, None), env);
      if auth.Err? {
        r := Failing(auth.status, env);
        return;
      }
      ExpireManagement(env);
      var _ := Failing(OperationDenied, env);
      r := ManageSubCommand(request.subCommand.value, request.params, env);
    }

    /** What an admitted request answers and leaves. */
    ghost predicate Managed(request: ManagementRequest, env: Env, uid: Option<u32>, creds: seq<Credential>, rows: Rows,
                            management: Option<ManagementState>, r: Result<Response>, creds': seq<Credential>,
                            rows': Rows, management': Option<ManagementState>)
    {
      && request.subCommand.Some?
      && var sub := request.subCommand.value;
      var live := if management.Some? && ManagementLive(management.value, uid, env) then management else None;
      && Enumeration(sub, request.params, creds, uid, live, env, r, management')
      && (sub == 6 ==> Deletion(request.params, env, creds, rows, r, creds', rows'))
      && (sub == 7 ==> UserUpdate(request.params, env, creds, rows, r, creds', rows'))
      && (sub != 6 && sub != 7 ==> creds' == creds && rows' == rows)
      && (!(1 <= sub <= 7) ==> r == Err(InvalidCommand))
    }

    /** The token check of a management request that gets that far: a PIN is set. */
    static function ManageCheck(manage: Option<ManagementRequest>, pin: Option<StoredPin>, env: Env): Option<TokenCheck> {
      if env.sessionFirst && manage.Some? && manage.value.subCommand.Some? && pin.Some?
      then Some(TokenCheck(manage.value.auth,
                           Canonical.ManagementAuthMessage(manage.value.subCommand.value, manage.value.params),
                           ManagementPermission, None))
      else None
    }

    /** The request reaches its sub-command. */
    static predicate Admits(manage: Option<ManagementRequest>, pin: Option<StoredPin>, t: Option<Token>, env: Env) {
      PassesCheck(t, ManageCheck(manage, pin, env), env)
    }

    /** What the enumeration sub-commands answer from cursor state `m`, and their new state. */
    ghost predicate Enumeration(subCommand: int, params: Option<seq<Cbor.Entry>>, creds: seq<Credential>,
                                uid: Option<u32>, m: Option<ManagementState>, env: Env, r: Result<Response>,
                                m': Option<ManagementState>)
    {
      var n := |creds|;
      match subCommand
      case 1 =>
        var count := |DiscoverableIndexes(creds)|;
        && r == Ok(CredsMetadata(count, if count <= MAX_RESIDENT_CREDENTIALS then MAX_RESIDENT_CREDENTIALS - count else 0))
        && m' == m
      case 2 =>
        var rps := RpIndexes(creds);
        if rps == [] then r == Err(NoCredentials) && m' == m
        else && rps[0] < n && r == Ok(RpEntryOf(creds[rps[0]], Some(|rps|)))
             && m' == Some(ManagementState(rps, 1, [], 0, uid, env.later))
      case 3 =>
        if m.None? || m.value.rpPosition >= |m.value.rpIndexes| then r == Err(NoCredentials) && m' == m
        else var k := m.value.rpIndexes[m.value.rpPosition];
             && k < n && r == Ok(RpEntryOf(creds[k], None)) && m' == Some(m.value.(rpPosition := m.value.rpPosition + 1))
      case 4 =>
        if params.None? || MapBytes(params.value, Cbor.Integer(1)).None? then
          r == Err(MissingParameter) && m' == m
        else
          var rpHash := MapBytes(params.value, Cbor.Integer(1)).value;
          var indexes := HashIndexes(creds, sha256, rpHash);
          if |rpHash| != 32 then r == Err(InvalidParameter) && m' == m
          else if indexes == [] then r == Err(NoCredentials) && m' == m
          else && indexes[0] < n && r == Ok(CredentialEntry(creds[indexes[0]], Some(|indexes|)))
               && m' == Some(ManagementState([], 0, indexes, 1, uid, env.later))
      case 5 =>
        if m.None? || m.value.credentialPosition >= |m.value.credentialIndexes| then r == Err(NoCredentials) && m' == m
        else var k := m.value.credentialIndexes[m.value.credentialPosition];
             && k < n && r == Ok(CredentialEntry(creds[k], None))
             && m' == Some(m.value.(credentialPosition := m.value.credentialPosition + 1))
      case _ => true
    }

    method ManageSubCommand(subCommand: int, params: Option<seq<Cbor.Entry>>, env: Env) returns (r: Result<Response>)
      requires Valid() && clock == env.later
      modifies this`credentials, this`management, this`pendingIntact, this`storeHealthy, store`rows
      ensures Valid()
      ensures 1 <= subCommand <= 5 ==> credentials == old(credentials) && store.rows == old(store.rows)
                                       && storeHealthy == old(storeHealthy) && pendingIntact == old(pendingIntact)
      ensures Enumeration(subCommand, params, old(credentials), uid, old(management), env, r, management)
      ensures subCommand == 6 ==> Deletion(params, env, old(credentials), old(store.rows), r, credentials, store.rows)
      ensures subCommand == 7 ==> UserUpdate(params, env, old(credentials), old(store.rows), r, credentials, store.rows)
      ensures !(1 <= subCommand <= 7) ==> r == Err(InvalidCommand)
      ensures subCommand != 6 && subCommand != 7 ==> credentials == old(credentials) && store.rows == old(store.rows)
      ensures old(storeHealthy) && !env.storeFault ==> storeHealthy
      ensures uid.Some? && Sound(old(store.rows), store.hmacKey) ==> Sound(store.rows, store.hmacKey)
      ensures r.Ok? ==> !r.value.Asserted? && !r.value.Failed?
    {
      hide Valid, CredentialStore.Valid,
           RpIndexes, HashIndexes, DiscoverableIndexes, SavedRows, PositionOf, NamedId, Sound;
      match subCommand {
        case 1 =>
          var count := |DiscoverableIndexes(credentials)|;
          r := Ok(CredsMetadata(count, if count <= MAX_RESIDENT_CREDENTIALS then MAX_RESIDENT_CREDENTIALS - count else 0));
        case 2 => r := EnumerateRpsBegin(env);
        case 3 => r := EnumerateRpsNext();
        case 4 => r := EnumerateCredentialsBegin(params, env);
        case 5 => r := EnumerateCredentialsNext();
        case 6 => r := DeleteCredential(params, env);
        case 7 => r := UpdateUserInformation(params, env);
        case _ => r := Err(InvalidCommand);
      }
    }

    // --------------------------------------------------------- PIN commands

    static predicate PinAcceptable(pin: Bytes) {
      4 <= |pin| <= 63 && 0 !in pin
    }

    static predicate KeysOk(key: KeyParam, agreed: bool) {
      key.GoodKey? && agreed
    }

    /** A well-formed, authenticated and acceptable new PIN. */
    static predicate Exchanges(key: KeyParam, agreed: bool, newPin: Option<NewPin>, macOk: Option<bool>) {
      && newPin.Some? && newPin.value.lengthOk && KeysOk(key, agreed) && macOk == Some(true)
      && newPin.value.plain.Some? && PinAcceptable(newPin.value.plain.value)
    }

    /** The PIN hash is compared: there is a PIN and it is not blocked. */
    static predicate Compares(pin: Option<StoredPin>, hash: Option<PinHash>) {
      && pin.Some? && pin.value.retries > 0 && hash.Some? && hash.value.lengthOk && |hash.value.plain| == 16
    }

    predicate RightPin(pin: Option<StoredPin>, hash: Option<PinHash>) {
      Compares(pin, hash) && pbkdf2(pin.value.salt, hash.value.plain) == pin.value.verifier
    }

    /** The PIN hash is right and, where that matters, the restored retries are persisted. */
    predicate PassesPin(pin: Option<StoredPin>, hash: Option<PinHash>, env: Env) {
      RightPin(pin, hash) && (pin.value.retries == PIN_RETRIES || !env.pinFault)
    }

    /** The PIN state after a comparison. */
    function ComparedPin(pin: Option<StoredPin>, hash: Option<PinHash>): Option<StoredPin> {
      if !Compares(pin, hash) then pin
      else Some(pin.value.(retries := if RightPin(pin, hash) then PIN_RETRIES else pin.value.retries - 1))
    }

    /** A comparison leaves one event. */
    function ComparisonEvents(pin: Option<StoredPin>, hash: Option<PinHash>): seq<PinEvent> {
      if !Compares(pin, hash) then [] else if RightPin(pin, hash) then [PinRight] else [PinWrong]
    }

    predicate SetsPin(pin: Option<StoredPin>, agreed: bool, key: KeyParam, newPin: Option<NewPin>, macOk: Option<bool>,
                      env: Env)
    {
      && pin.None? && Exchanges(key, agreed, newPin, macOk)
      && !env.pinFault && PinStorable(NewPinState(newPin.value.plain.value, env))
    }

    predicate ChangesPin(pin: Option<StoredPin>, agreed: bool, key: KeyParam, newPin: Option<NewPin>,
                         pinHash: Option<PinHash>, macOk: Option<bool>, env: Env)
    {
      && Exchanges(key, agreed, newPin, macOk) && PassesPin(pin, pinHash, env)
      && !env.pinFault && PinStorable(NewPinState(newPin.value.plain.value, env))
    }

    /** Some permission is asked for, and a relying party where assertions are. */
    static predicate Scoped(permissions: Option<set<Permission>>, rpId: Option<Bytes>) {
      && permissions.Some? && permissions.value != {}
      && (GetAssertionPermission in permissions.value ==> rpId.Some?)
    }

    predicate GrantsPinToken(pin: Option<StoredPin>, agreed: bool, key: KeyParam, pinHash: Option<PinHash>,
                             permissions: Option<set<Permission>>, rpId: Option<Bytes>, env: Env)
    {
      Scoped(permissions, rpId) && KeysOk(key, agreed) && PassesPin(pin, pinHash, env)
    }

    static predicate GrantsUvToken(agreed: bool, key: KeyParam, permissions: Option<set<Permission>>, rpId: Option<Bytes>,
                                   env: Env)
    {
      Scoped(permissions, rpId) && KeysOk(key, agreed) && env.sessionBefore && env.approved && env.sessionAfter
    }

    /** What each clientPIN sub-command answers, and the PIN and token it leaves. */
    ghost predicate PinOutcome(request: PinRequest, pin: Option<StoredPin>, agreed: bool, t: Option<Token>, env: Env,
                               response: Response, pin': Option<StoredPin>, agreed': bool, t': Option<Token>)
    {
      match request
      case GetRetries(extra) =>
        && response == (if extra then Failed(InvalidParameter)
                        else Retries(if pin.Some? then pin.value.retries else PIN_RETRIES))
        && pin' == pin && agreed' == agreed && t' == t
      case GetKeyAgreement(extra) =>
        && response == (if extra then Failed(InvalidParameter) else KeyAgreement)
        && pin' == pin && agreed' == (agreed || !extra) && t' == t
      case SetPin(key, newPin, macOk) =>
        && agreed' == agreed && t' == t
        && if SetsPin(pin, agreed, key, newPin, macOk, env)
           then response == Done && pin' == Some(NewPinState(newPin.value.plain.value, env))
           else response.Failed? && pin' == pin
      case ChangePin(key, newPin, pinHash, macOk) =>
        && agreed' == agreed && t' == t
        && if ChangesPin(pin, agreed, key, newPin, pinHash, macOk, env)
           then response == Done && pin' == Some(NewPinState(newPin.value.plain.value, env))
           else response.Failed? && pin' == if Exchanges(key, agreed, newPin, macOk) then ComparedPin(pin, pinHash) else pin
      case GetPinToken(key, pinHash, permissions, rpId) =>
        && agreed' == agreed
        && pin' == (if Scoped(permissions, rpId) && KeysOk(key, agreed)
                    then ComparedPin(pin, pinHash) else pin)
        && if GrantsPinToken(pin, agreed, key, pinHash, permissions, rpId, env)
           then response == TokenGranted(env.newToken)
                && t' == Some(Token(env.newToken, permissions.value, rpId, env.later))
           else response.Failed? && t' == t
      case GetUvToken(key, permissions, rpId) =>
        && agreed' == agreed && pin' == pin
        && if GrantsUvToken(agreed, key, permissions, rpId, env)
           then response == TokenGranted(env.newToken)
                && t' == Some(Token(env.newToken, permissions.value, rpId, env.later))
           else response.Failed? && t' == t
      case UnknownPinCommand => response == Failed(InvalidCommand) && pin' == pin && agreed' == agreed && t' == t
    }

    /** The PIN events of a clientPIN sub-command. */
    function PinRequestEvents(request: PinRequest, pin: Option<StoredPin>, agreed: bool, env: Env): seq<PinEvent> {
      match request
      case SetPin(key, newPin, macOk) => if SetsPin(pin, agreed, key, newPin, macOk, env) then [PinSet] else []
      case ChangePin(key, newPin, pinHash, macOk) =>
        (if Exchanges(key, agreed, newPin, macOk) then ComparisonEvents(pin, pinHash) else [])
        + (if ChangesPin(pin, agreed, key, newPin, pinHash, macOk, env) then [PinSet] else [])
      case GetPinToken(key, pinHash, permissions, rpId) =>
        if Scoped(permissions, rpId) && KeysOk(key, agreed) then ComparisonEvents(pin, pinHash) else []
      case _ => []
    }

    /** The token that a clientPIN sub-command grants. */
    function Granted(request: PinRequest, pin: Option<StoredPin>, agreed: bool, env: Env): Option<Token> {
      match request
      case GetPinToken(key, pinHash, permissions, rpId) =>
        if GrantsPinToken(pin, agreed, key, pinHash, permissions, rpId, env)
        then Some(Token(env.newToken, permissions.value, rpId, env.later)) else None
      case GetUvToken(key, permissions, rpId) =>
        if GrantsUvToken(agreed, key, permissions, rpId, env)
        then Some(Token(env.newToken, permissions.value, rpId, env.later)) else None
      case _ => None
    }

    /** A clientPIN sub-command answers, changes PIN, key agreement and token, and logs. */
    ghost predicate PinDone(request: PinRequest, env: Env, s: Snapshot, response: Response, s': Snapshot) {
      && PinOutcome(request, s.clientPin, s.agreed, s.token, env, response, s'.clientPin, s'.agreed, s'.token)
      && s'.pinLog == s.pinLog + PinRequestEvents(request, s.clientPin, s.agreed, env)
      && (response == Done ==> s'.storedPin == s'.clientPin)
      && var granted := Granted(request, s.clientPin, s.agreed, env);
         s'.tokenLog == s.tokenLog + if granted.Some? then [Issued(granted.value)] else []
    }

    /** setPIN: only when none is set. */
    method HandleSetPin(key: KeyParam, newPin: Option<NewPin>, macOk: Option<bool>, env: Env) returns (r: Result<Response>)
      requires Valid()
      modifies this`clientPin, this`pinLog, this`pinHealthy, store`pin, store`pinMac
      ensures Valid()
      ensures r.Ok? <==> SetsPin(old(clientPin), keyAgreement, key, newPin, macOk, env)
      ensures r.Ok? ==> && clientPin == Some(NewPinState(newPin.value.plain.value, env)) && store.pin == clientPin
                        && pinLog == old(pinLog) + [PinSet] && r.value == Done
      ensures old(clientPin).Some? ==> r.Err?
      ensures r.Err? ==> clientPin == old(clientPin) && pinLog == old(pinLog)
      ensures pinHealthy == old(pinHealthy)
      ensures PinDone(SetPin(key, newPin, macOk), env, old(Snap()), ToResponse(r), Snap())
    {
      hide Valid, CredentialStore.Valid;
      if newPin.None? || macOk.None? {
        return Err(MissingParameter);
      }
      if clientPin.Some? {
        return Err(InvalidCommand);
      }
      if !newPin.value.lengthOk {
        return Err(InvalidParameter);
      }
      var keys := KeysError(key);
      if keys.Some? {
        return Err(keys.value);
      }
      if !macOk.value {
        return Err(PinAuthInvalid);
      }
      if newPin.value.plain.None? || !PinAcceptable(newPin.value.plain.value) {
        return Err(PinPolicyViolation);
      }
      r := AdoptPin(newPin.value.plain.value, env);
    }

    /** changePIN: the old PIN is authenticated first, so it never passes a blocked PIN. */
    method HandleChangePin(key: KeyParam, newPin: Option<NewPin>, pinHash: Option<PinHash>, macOk: Option<bool>, env: Env)
      returns (r: Result<Response>)
      requires Valid()
      modifies this`clientPin, this`pinLog, this`pinHealthy, store`pin, store`pinMac
      ensures Valid()
      ensures r.Ok? <==> ChangesPin(old(clientPin), keyAgreement, key, newPin, pinHash, macOk, env)
      ensures r.Ok? ==> && clientPin == Some(NewPinState(newPin.value.plain.value, env)) && store.pin == clientPin
                        && r.value == Done
      ensures r.Err? ==> clientPin == if Exchanges(key, keyAgreement, newPin, macOk)
                                      then ComparedPin(old(clientPin), pinHash) else old(clientPin)
      ensures pinLog == old(pinLog)
                        + (if Exchanges(key, keyAgreement, newPin, macOk) then ComparisonEvents(old(clientPin), pinHash) else [])
                        + (if r.Ok? then [PinSet] else [])
      ensures !env.pinFault ==> pinHealthy == old(pinHealthy)
    {
      hide Valid, CredentialStore.Valid;
      if newPin.None? || pinHash.None? || macOk.None? {
        return Err(MissingParameter);
      }
      if clientPin.None? {
        return Err(PinNotSet);
      }
      if !newPin.value.lengthOk || !pinHash.value.lengthOk {
        return Err(InvalidParameter);
      }
      var keys := KeysError(key);
      if keys.Some? {
        return Err(keys.value);
      }
      if !macOk.value {
        return Err(PinAuthInvalid);
      }
      if newPin.value.plain.None? || !PinAcceptable(newPin.value.plain.value) {
        return Err(PinPolicyViolation);
      }
      var checked := AuthenticatePin(pinHash.value.plain, env);
      if checked.Err? {
        return Err(checked.status);
      }
      r := AdoptPin(newPin.value.plain.value, env);
    }

    /** A token for the right PIN. */
    method HandlePinToken(key: KeyParam, pinHash: Option<PinHash>, permissions: Option<set<Permission>>,
                          rpId: Option<Bytes>, env: Env)
      returns (r: Result<Response>)
      requires Valid() && clock <= env.later
      modifies this`clientPin, this`pinLog, this`pinHealthy, this`token, this`tokenLog, this`clock, store`pin, store`pinMac
      ensures Valid() && clock == env.later
      ensures r.Ok? <==> GrantsPinToken(old(clientPin), keyAgreement, key, pinHash, permissions, rpId, env)
      ensures r.Ok? ==> && token == Some(Token(env.newToken, permissions.value, rpId, env.later))
                        && tokenLog == old(tokenLog) + [Issued(token.value)] && r.value == TokenGranted(env.newToken)
      ensures r.Err? ==> token == old(token) && tokenLog == old(tokenLog)
      ensures clientPin == if Scoped(permissions, rpId) && KeysOk(key, keyAgreement)
                           then ComparedPin(old(clientPin), pinHash) else old(clientPin)
      ensures pinLog == old(pinLog) + if Scoped(permissions, rpId) && KeysOk(key, keyAgreement)
                                      then ComparisonEvents(old(clientPin), pinHash) else []
      ensures !env.pinFault ==> pinHealthy == old(pinHealthy)
    {
      hide Valid, CredentialStore.Valid;
      if pinHash.None? || permissions.None? {
        r := Failing(MissingParameter, env);
        return;
      }
      if permissions.value == {} || (GetAssertionPermission in permissions.value && rpId.None?) {
        r := Failing(InvalidParameter, env);
        return;
      }
      var keys := KeysError(key);
      if keys.Some? {
        r := Failing(keys.value, env);
        return;
      }
      if !pinHash.value.lengthOk {
        r := Failing(InvalidParameter, env);
        return;
      }
      var checked := AuthenticatePin(pinHash.value.plain, env);
      if checked.Err? {
        r := Failing(checked.status, env);
        return;
      }
      r := IssueToken(permissions.value, rpId, env);
    }

    /** A token for the user's approval, without a PIN. */
    method HandleUvToken(key: KeyParam, permissions: Option<set<Permission>>, rpId: Option<Bytes>, env: Env)
      returns (r: Result<Response>)
      requires Valid() && clock <= env.later
      modifies this`token, this`tokenLog, this`clock
      ensures Valid() && clock == env.later
      ensures r.Ok? <==> GrantsUvToken(keyAgreement, key, permissions, rpId, env)
      ensures r.Ok? ==> && token == Some(Token(env.newToken, permissions.value, rpId, env.later))
                        && tokenLog == old(tokenLog) + [Issued(token.value)] && r.value == TokenGranted(env.newToken)
      ensures r.Err? ==> token == old(token) && tokenLog == old(tokenLog)
      ensures PinDone(GetUvToken(key, permissions, rpId), env, old(Snap()), ToResponse(r), Snap())
    {
      hide Valid, CredentialStore.Valid;
      if permissions.None? {
        r := Failing(MissingParameter, env);
        return;
      }
      if permissions.value == {} || (GetAssertionPermission in permissions.value && rpId.None?) {
        r := Failing(InvalidParameter, env);
        return;
      }
      if !env.sessionBefore || !env.approved || !env.sessionAfter {
        r := Failing(OperationDenied, env);
        return;
      }
      var keys := KeysError(key);
      if keys.Some? {
        r := Failing(keys.value, env);
        return;
      }
      r := IssueToken(permissions.value, rpId, env);
    }

    method AgreeOnKey()
      requires Valid()
      modifies this`keyAgreement
      ensures Valid() && keyAgreement
    {
      keyAgreement := true;
    }

    method AnswerChangePin(key: KeyParam, newPin: Option<NewPin>, pinHash: Option<PinHash>, macOk: Option<bool>, env: Env)
      returns (r: Result<Response>)
      requires Valid()
      modifies this`clientPin, this`pinLog, this`pinHealthy, store`pin, store`pinMac
      ensures Valid() && (!env.pinFault ==> pinHealthy == old(pinHealthy))
      ensures PinDone(ChangePin(key, newPin, pinHash, macOk), env, old(Snap()), ToResponse(r), Snap())
      ensures r.Ok? ==> !r.value.Asserted?
    {
      hide Valid, CredentialStore.Valid, ChangesPin, Exchanges, ComparedPin, ComparisonEvents, NewPinState;
      r := HandleChangePin(key, newPin, pinHash, macOk, env);
    }

    method AnswerPinToken(key: KeyParam, pinHash: Option<PinHash>, permissions: Option<set<Permission>>,
                          rpId: Option<Bytes>, env: Env)
      returns (r: Result<Response>)
      requires Valid() && clock <= env.later
      modifies this`clientPin, this`pinLog, this`pinHealthy, this`token, this`tokenLog, this`clock, store`pin, store`pinMac
      ensures Valid() && clock == env.later && (!env.pinFault ==> pinHealthy == old(pinHealthy))
      ensures PinDone(GetPinToken(key, pinHash, permissions, rpId), env, old(Snap()), ToResponse(r), Snap())
      ensures r.Ok? ==> !r.value.Asserted?
    {
      hide Valid, CredentialStore.Valid, GrantsPinToken, Scoped, KeysOk, ComparedPin, ComparisonEvents;
      r := HandlePinToken(key, pinHash, permissions, rpId, env);
    }

    /** authenticatorClientPIN. */
    method HandleClientPin(protocol: Option<int>, pin: Option<PinRequest>, env: Env) returns (r: Result<Response>)
      requires Valid() && clock <= env.later
      modifies this`clientPin, this`pinLog, this`pinHealthy, this`token, this`tokenLog, this`clock,
               this`keyAgreement, store`pin, store`pinMac
      ensures Valid() && clock == env.later
      ensures if pin.Some? && protocol == Some(2)
              then PinDone(pin.value, env, old(Snap()), ToResponse(r), Snap())
              else r.Err? && Snap() == old(Snap())
      ensures r.Ok? ==> !r.value.Asserted?
      ensures !env.pinFault ==> pinHealthy == old(pinHealthy)
    {
      hide Valid, CredentialStore.Valid, PinDone, SetsPin, ChangesPin, GrantsPinToken, GrantsUvToken, Exchanges,
           Scoped, KeysOk,
           ComparedPin, NewPinState, ComparisonEvents;
      if pin.None? {
        r := Failing(InvalidCbor, env);
        return;
      }
      if protocol.None? || protocol.value < 0 {
        r := Failing(MissingParameter, env);
        return;
      }
      if protocol.value != 2 {
        r := Failing(InvalidParameter, env);
        return;
      }
      match pin.value {
        case SetPin(key, newPin, macOk) =>
          r := HandleSetPin(key, newPin, macOk, env);
          var _ := Failing(InvalidParameter, env);
        case ChangePin(key, newPin, pinHash, macOk) =>
          r := AnswerChangePin(key, newPin, pinHash, macOk, env);
          var _ := Failing(InvalidParameter, env);
        case GetPinToken(key, pinHash, permissions, rpId) =>
          r := AnswerPinToken(key, pinHash, permissions, rpId, env);
        case GetUvToken(key, permissions, rpId) =>
          r := HandleUvToken(key, permissions, rpId, env);
        case _ =>
          r := HandlePinQuery(pin.value, env);
      }
    }

    /** getPINRetries, getKeyAgreement and unknown sub-commands. */
    method HandlePinQuery(request: PinRequest, env: Env) returns (r: Result<Response>)
      requires Valid() && clock <= env.later
      requires request.GetRetries? || request.GetKeyAgreement? || request.UnknownPinCommand?
      modifies this`clock, this`keyAgreement
      ensures Valid() && clock == env.later
      ensures PinDone(request, env, old(Snap()), ToResponse(r), Snap())
      ensures r.Ok? ==> !r.value.Asserted?
    {
      hide Valid, CredentialStore.Valid;
      r := Failing(if request.UnknownPinCommand? then InvalidCommand else InvalidParameter, env);
      if request.GetRetries? && !request.extraParameters {
        r := Ok(Retries(if clientPin.Some? then clientPin.value.retries else PIN_RETRIES));
      } else if request.GetKeyAgreement? && !request.extraParameters {
        AgreeOnKey();
        r := Ok(KeyAgreement);
      }
    }

    // ------------------------------------------------------ reset and cancel

    /** The store fails at nothing. */
    static ghost predicate Fine(env: Env) {
      !env.loadFault && !env.storeFault && forall k: nat :: !env.deleteFault(k)
    }

    /** Clears PIN and token, if a PIN is set; a failure to delete the row is ignored. */
    method ClearPin(env: Env)
      requires Valid() && clientPin.Some?
      modifies this`clientPin, this`pinLog, this`pinHealthy, this`keyAgreement, this`token, this`tokenLog,
               store`pin, store`pinMac
      ensures Valid() && clientPin == None && token == None && !keyAgreement
      ensures pinLog == old(pinLog) + [PinCleared] && tokenLog == old(tokenLog) + [Dropped(PinReset)]
      ensures !env.pinFault ==> pinHealthy == old(pinHealthy)
    {
      hide CredentialStore.Valid, CountsOk, Agree, OwnersOk, CursorsOk, PendingOk, TokenOk, NeverGuessedLate,
           WrongSince, FaithfulReloads;
      PinLogExtends(pinLog, PinCleared);
      var ok := store.DeletePin(env.pinFault);
      clientPin, pinLog, pinHealthy, keyAgreement := None, pinLog + [PinCleared], pinHealthy && ok, false;
      DropToken(PinReset);
    }

    /** Deletes every cached credential's row, ignoring failures, and empties the cache. */
    method ClearCredentials(env: Env)
      requires Valid()
      modifies this`credentials, this`pending, this`pendingIntact, this`management, this`storeHealthy, store`rows
      ensures Valid() && credentials == [] && pending == None && management == None
      ensures store.rows.Keys <= old(store.rows).Keys
      ensures DeletesAll(old(credentials), env) ==> storeHealthy == old(storeHealthy)
      ensures Cleared(old(credentials), |old(credentials)|, env, old(store.rows), store.rows)
      ensures Sound(old(store.rows), store.hmacKey) ==> Sound(store.rows, store.hmacKey)
    {
      hide Valid, CredentialStore.Valid, Agree, SubRows, Cleared, Sound, DeletesAll;
      ghost var before, healthy := store.rows, storeHealthy;
      SuspendAgreement();
      ghost var clean := DeleteRows(env);
      if healthy && clean {
        ClearedAgree(credentials, before, store.rows, uid, env);
      }
      ForgetCredentials(healthy && clean);
    }

    /** While rows are deleted one by one, agreement is not claimed. */
    ghost method SuspendAgreement()
      requires Valid()
      modifies this`storeHealthy
      ensures Valid() && !storeHealthy && (old(storeHealthy) ==> Agree(credentials, store.rows, uid))
    {
      hide CredentialStore.Valid, CountsOk, Agree, OwnersOk, PinOk, CursorsOk, PendingOk, TokenOk, FaithfulReloads;
      storeHealthy := false;
    }

    method ForgetCredentials(ghost healthy: bool)
      requires Valid() && (healthy ==> Agree([], store.rows, uid))
      modifies this`credentials, this`pending, this`pendingIntact, this`management, this`storeHealthy
      ensures Valid() && credentials == [] && pending == None && management == None && storeHealthy == healthy
    {
      hide CredentialStore.Valid, CountsOk, Agree, OwnersOk, PinOk, CursorsOk, PendingOk, TokenOk, FaithfulReloads;
      NoCredentialsOk(released, usedIds, credentials, store.rows);
      NoCursorsOk([], uid);
      storeHealthy := healthy;
      credentials, pending, pendingIntact, management := [], None, true, None;
    }

    /** Tries to delete the row of every cached credential. */
    method DeleteRows(env: Env) returns (ghost clean: bool)
      requires Valid() && !storeHealthy
      modifies store`rows
      ensures Valid()
      ensures SubRows(store.rows, old(store.rows)) && store.rows.Keys <= old(store.rows).Keys
      ensures Sound(old(store.rows), store.hmacKey) ==> Sound(store.rows, store.hmacKey)
      ensures clean <==> DeletesAll(credentials, env)
      ensures Cleared(credentials, |credentials|, env, old(store.rows), store.rows)
    {
      hide CredentialStore.Valid, CountsOk, Agree, OwnersOk, PinOk, CursorsOk, PendingOk, TokenOk, FaithfulReloads,
           Sound;
      ghost var before := store.rows;
      clean := true;
      for i := 0 to |credentials|
        invariant SubRows(store.rows, before)
        invariant clean <==> forall k :: 0 <= k < i ==> !env.deleteFault(k)
        invariant Cleared(credentials, i, env, before, store.rows)
      {
        var ok := store.Delete(credentials[i].id, env.deleteFault(i));
        clean := clean && !env.deleteFault(i);
      }
      SubRowsSound(before, store.rows, store.hmacKey);
      SubRowsCounts(released, usedIds, credentials, before, store.rows);
    }

    static lemma SubRowsCounts(released: seq<Release>, used: set<Bytes>, creds: seq<Credential>, before: Rows, rows: Rows)
      requires CountsOk(released, used, creds, before) && SubRows(rows, before)
      ensures CountsOk(released, used, creds, rows)
    {
      SubsetKeepsCounts(released, used, creds, before, creds, rows);
    }

    /** The rows of the first `n` credentials are gone unless deleting them failed; rows of
        other credentials remain. */
    static ghost predicate Cleared(creds: seq<Credential>, n: nat, env: Env, rows: Rows, rows': Rows) {
      && (forall k :: 0 <= k < n && k < |creds| && !env.deleteFault(k) ==> creds[k].id !in rows')
      && (forall id :: id in rows && (forall k :: 0 <= k < |creds| ==> creds[k].id != id) ==>
            id in rows' && rows'[id] == rows[id])
    }

    static ghost predicate DeletesAll(creds: seq<Credential>, env: Env) {
      forall k :: 0 <= k < |creds| ==> !env.deleteFault(k)
    }

    static ghost predicate SubRows(rows: Rows, before: Rows) {
      forall id :: id in rows ==> id in before && rows[id] == before[id]
    }

    static lemma SubRowsSound(before: Rows, rows: Rows, hmacKey: Bytes)
      requires SubRows(rows, before)
      ensures Sound(before, hmacKey) ==> Sound(rows, hmacKey)
    {
      hide Sound;
      SameIdentitySound(before, rows, hmacKey);
    }

    static lemma ClearedAgree(creds: seq<Credential>, before: Rows, rows: Rows, uid: Option<u32>, env: Env)
      requires Agree(creds, before, uid) && SubRows(rows, before) && DeletesAll(creds, env)
      requires Cleared(creds, |creds|, env, before, rows)
      ensures Agree([], rows, uid)
    {
      forall id | id in VisibleIds(before, uid)
        ensures id !in rows
      {
        assert HasCredential(creds, id);
      }
      assert forall id :: id in VisibleIds(rows, uid) ==> id in VisibleIds(before, uid);
    }

    /** authenticatorReset. */
    method HandleReset(env: Env) returns (r: Result<Response>)
      requires Valid() && clock <= env.later
      modifies this`credentials, this`pending, this`pendingIntact, this`management, this`storeHealthy, this`clientPin,
               this`pinLog, this`pinHealthy, this`keyAgreement, this`token, this`tokenLog, this`clock, store
      ensures Valid() && clock == env.later
      ensures r == if Approved(env) then Ok(Done) else Err(OperationDenied)
      ensures r.Ok? ==> credentials == [] && clientPin == None && pending == None && management == None
      ensures r.Ok? ==> Cleared(old(credentials), |old(credentials)|, env, old(store.rows), store.rows)
      ensures if r.Ok? && old(clientPin).Some?
              then && token == None && !keyAgreement
                   && tokenLog == old(tokenLog) + [Dropped(PinReset)] && pinLog == old(pinLog) + [PinCleared]
              else && token == old(token) && keyAgreement == old(keyAgreement)
                   && tokenLog == old(tokenLog) && pinLog == old(pinLog)
      ensures r.Err? ==> credentials == old(credentials) && clientPin == old(clientPin) && store.rows == old(store.rows)
                         && pending == old(pending) && management == old(management)
                         && storeHealthy == old(storeHealthy) && pinHealthy == old(pinHealthy)
                         && store.pin == old(store.pin)
      ensures old(storeHealthy) && Fine(env) ==> storeHealthy
      ensures Sound(old(store.rows), store.hmacKey) ==> Sound(store.rows, store.hmacKey)
      ensures !env.pinFault ==> pinHealthy == old(pinHealthy)
    {
      hide Valid, CredentialStore.Valid, Cleared, Sound;
      if !Approved(env) {
        r := Failing(OperationDenied, env);
        return;
      }
      var _ := Failing(OperationDenied, env);
      if clientPin.Some? {
        ClearPin(env);
      }
      ClearCredentials(env);
      r := Ok(Done);
    }

    /** CTAPHID_CANCEL. */
    method CancelPending()
      requires Valid()
      modifies this`pending, this`pendingIntact, this`management, this`token, this`tokenLog, this`keyAgreement
      ensures Valid() && pending == None && management == None && token == None && !keyAgreement
      ensures tokenLog == old(tokenLog) + [Dropped(Cancelled)]
    {
      hide CredentialStore.Valid, CountsOk, Agree, OwnersOk, PinOk, CursorsOk, PendingOk, TokenOk, FaithfulReloads;
      NoCursorsOk(credentials, uid);
      pending, pendingIntact, management, keyAgreement := None, true, None, false;
      DropToken(Cancelled);
    }

    /** A policy update ordered by the management thread: it reaches the store only. */
    method StorePolicy(id: Bytes, policy: StoredPcrPolicy, fault: bool) returns (ok: bool)
      requires Valid()
      modifies store`rows
      ensures Valid()
      ensures ok <==> !fault && id in old(store.rows)
      ensures store.rows == if ok then old(store.rows)[id := WithPolicy(old(store.rows)[id], policy)] else old(store.rows)
      ensures Sound(old(store.rows), store.hmacKey) ==> Sound(store.rows, store.hmacKey)
    {
      hide CredentialStore.Valid, CountsOk, Agree, OwnersOk, PinOk, CursorsOk, PendingOk, TokenOk, FaithfulReloads,
           Sound;
      if id in store.rows {
        RowChangeOk(released, usedIds, credentials, store.rows, uid, id, WithPolicy(store.rows[id], policy));
        SameIdentitySound(store.rows, store.rows[id := WithPolicy(store.rows[id], policy)], store.hmacKey);
      }
      ok := store.UpdatePolicy(id, policy, fault);
    }

    /** A recovery passphrase change ordered by the management thread. */
    method StoreRecovery(id: Bytes, private: Bytes, salt: Bytes, hash: Bytes, kdf: RecoveryKdf, fault: bool)
      returns (ok: bool)
      requires Valid()
      modifies store`rows
      ensures Valid()
      ensures ok <==> !fault && id in old(store.rows) && old(store.rows)[id].recovery.Some?
      ensures store.rows == if ok then old(store.rows)[id := WithRecovery(old(store.rows)[id], private, salt, hash, kdf)]
                            else old(store.rows)
      ensures Sound(old(store.rows), store.hmacKey) ==> Sound(store.rows, store.hmacKey)
    {
      hide CredentialStore.Valid, CountsOk, Agree, OwnersOk, PinOk, CursorsOk, PendingOk, TokenOk, FaithfulReloads,
           Sound;
      if id in store.rows && store.rows[id].recovery.Some? {
        RowChangeOk(released, usedIds, credentials, store.rows, uid, id,
                    WithRecovery(store.rows[id], private, salt, hash, kdf));
        SameIdentitySound(store.rows, store.rows[id := WithRecovery(store.rows[id], private, salt, hash, kdf)], store.hmacKey);
      }
      ok := store.UpdateRecovery(id, private, salt, hash, kdf, fault);
    }

    /** Changing policy or recovery columns touches neither counters nor agreement. */
    static lemma RowChangeOk(released: seq<Release>, used: set<Bytes>, creds: seq<Credential>, rows: Rows,
                             uid: Option<u32>, id: Bytes, row: Row)
      requires CountsOk(released, used, creds, rows) && id in rows
      requires row.meta == rows[id].meta && row.primary.tpmKey == rows[id].primary.tpmKey
               && row.primary.publicKey == rows[id].primary.publicKey
      ensures CountsOk(released, used, creds, rows[id := row])
      ensures Agree(creds, rows, uid) ==> Agree(creds, rows[id := row], uid)
    {
      assert VisibleIds(rows[id := row], uid) == VisibleIds(rows, uid);
    }

    // ------------------------------------------------------------- dispatch

    /** Commands that are refused until a daemon passphrase is set. */
    static predicate NeedsPassphrase(request: Request) {
      || request.MakeCredential? || request.GetAssertion? || request.GetNextAssertion?
      || (request.CredentialManagement? && !request.preview)
    }

    static predicate Refused(request: Request, env: Env) {
      NeedsPassphrase(request) && !env.passphraseSet
    }

    /** The token check that a command makes. */
    static function CheckOf(request: Request, env: Env, s: Snapshot): Option<TokenCheck> {
      if Refused(request, env) then None
      else
        match request
        case MakeCredential(make) => MakeCheck(make)
        case GetAssertion(get) => GetCheck(get)
        case CredentialManagement(_, manage) => ManageCheck(manage, s.clientPin, env)
        case _ => None
    }

    predicate IsPinRequest(request: Request) {
      request.ClientPin? && request.pin.Some? && request.protocol == Some(2)
    }

    /** The token events of a command: its check, a grant, or the drop of a reset. */
    function TokenEvents(request: Request, env: Env, s: Snapshot): seq<TokenEvent> {
      if IsPinRequest(request) then
        var granted := Granted(request.pin.value, s.clientPin, s.agreed, env);
        if granted.Some? then [Issued(granted.value)] else []
      else if request.Reset? then if Approved(env) && s.clientPin.Some? then [Dropped(PinReset)] else []
      else CheckEvents(s.token, CheckOf(request, env, s), env)
    }

    function TokenAfter(request: Request, env: Env, s: Snapshot): Option<Token> {
      if IsPinRequest(request) then
        var granted := Granted(request.pin.value, s.clientPin, s.agreed, env);
        if granted.Some? then granted else s.token
      else if request.Reset? then if Approved(env) && s.clientPin.Some? then None else s.token
      else CheckedToken(s.token, CheckOf(request, env, s), env)
    }

    /** The PIN events of a command. */
    function PinEvents(request: Request, env: Env, s: Snapshot): seq<PinEvent> {
      if IsPinRequest(request) then PinRequestEvents(request.pin.value, s.clientPin, s.agreed, env)
      else if request.Reset? && Approved(env) && s.clientPin.Some? then [PinCleared]
      else []
    }

    /** What a getAssertion matched against the list `seen` answers and leaves. */
    ghost predicate AssertedFrom(get: Option<GetAssertionRequest>, env: Env, s: Snapshot, seen: seq<Credential>,
                                 response: Response, s': Snapshot)
    {
      && Seen(seen, get, s.token, s.credentials, s.rows, s.uid, env)
      && if !Reaches(get, s.token, seen, env) then
           response.Failed? && s'.pending == None && s'.credentials == seen && s'.rows == s.rows
         else
           var rpId, hash := get.value.rpId.value, get.value.clientDataHash.value;
           var verified := get.value.uv || VerifiedBy(s.token, GetCheck(get), env);
           var indexes := MatchingIndexes(seen, rpId, get.value.allowList);
           && indexes[0] < |seen| && s'.pending == Remaining(indexes, rpId, hash, verified, s.uid, env.later)
           && var c := seen[indexes[0]];
              if Signable(c, env) && !env.storeFault && c.id in s.rows then
                && response == Asserted(AssertionFor(c, verified, hash, |indexes|))
                && s'.rows == Counted(s.rows, c.id, NextCount(c.signCount))
                && s'.credentials == seen[indexes[0] := c.(signCount := NextCount(c.signCount))]
              else response == Failed(OperationDenied) && s'.credentials == seen && s'.rows == s.rows
    }

    /** What a command answers, and what it does to credentials, cursors and PIN. */
    ghost predicate Effect(request: Request, env: Env, s: Snapshot, response: Response, s': Snapshot) {
      if Refused(request, env) then response == Failed(OperationDenied) && s' == Clearing(request, s)
      else
        match request
        case GetInfo => response == Info(s.clientPin.Some?) && s' == Clearing(request, s)
        case SelectionRequest =>
          response == (if Approved(env) then Done else Failed(OperationDenied)) && s' == Clearing(request, s)
        case UnknownCommand => response == Failed(InvalidCommand) && s' == s
        case ClientPin(_, _) =>
          && s'.credentials == s.credentials && s'.rows == s.rows && s'.pending == None
          && if IsPinRequest(request)
             then PinDone(request.pin.value, env, s, response, s')
             else response.Failed? && s' == Clearing(request, s)
        case MakeCredential(make) =>
          && s'.pending == None
          && if Registers(make, s.credentials, s.token, env) then
               && response == Registered(env.newId, make.value.uv || VerifiedBy(s.token, MakeCheck(make), env))
               && s'.credentials == s.credentials + [NewCredential(make.value, s.uid, env)]
               && s'.rows == SavedRows(s'.credentials, s.rows, env)
             else response.Failed? && s'.credentials == s.credentials && s'.rows == s.rows
        case GetAssertion(get) => exists seen :: AssertedFrom(get, env, s, seen, response, s')
        case GetNextAssertion(bodyEmpty) =>
          NextOutcome(bodyEmpty, env, s.uid, s.pending, s.credentials, s.rows, s.released, response, s'.pending,
                      s'.credentials, s'.rows, s'.released)
        case CredentialManagement(preview, manage) =>
          && s'.pending == (if preview then None else s.pending)
          && if Admits(manage, s.clientPin, s.token, env)
             then Managed(manage.value, env, s.uid, s.credentials, s.rows, if preview then None else s.management,
                          FromResponse(response), s'.credentials, s'.rows, s'.management)
             else response.Failed? && s'.credentials == s.credentials && s'.rows == s.rows
        case Reset =>
          if Approved(env) then
            && response == Done && s'.credentials == [] && s'.clientPin == None && s'.pending == None
            && s'.management == None && Cleared(s.credentials, |s.credentials|, env, s.rows, s'.rows)
          else response == Failed(OperationDenied) && s' == Clearing(request, s)
    }

    /** What every command does: the exact events it adds to the histories, the token it
        leaves, what it preserves about the store, and its own effect. */
    ghost predicate Outcome(request: Request, env: Env, s: Snapshot, response: Response, s': Snapshot) {
      && s'.uid == s.uid
      && s'.token == TokenAfter(request, env, s) && s'.tokenLog == s.tokenLog + TokenEvents(request, env, s)
      && s'.pinLog == s.pinLog + PinEvents(request, env, s)
      && (!request.ClientPin? && !request.Reset? ==>
            s'.clientPin == s.clientPin && s'.agreed == s.agreed && s'.storedPin == s.storedPin)
      && (!request.CredentialManagement? && !request.UnknownCommand? ==> s'.management == None)
      && ReleasedBy(response, s.released, s'.released, s'.rows)
      && (s.storeHealthy && Fine(env) && Loads(s.rows, s.uid, env) ==> s'.storeHealthy)
      && (s.uid.Some? && Sound(s.rows, store.hmacKey) ==> Sound(s'.rows, store.hmacKey))
      && (!env.pinFault ==> s'.pinHealthy == s.pinHealthy)
      && Effect(request, env, s, response, s')
    }

    /** A blocked PIN passes nothing and stays blocked. */
    lemma BlockedOutcome(request: Request, env: Env, s: Snapshot, response: Response, s': Snapshot)
      requires Outcome(request, env, s, response, s') && !request.Reset?
      requires s.clientPin.Some? && s.clientPin.value.retries == 0
      ensures s'.clientPin == s.clientPin && s'.pinLog == s.pinLog
      ensures request.ClientPin? && !response.Failed? ==>
                request.pin.Some? && !request.pin.value.ChangePin? && !request.pin.value.GetPinToken?
    {
      hide Sound, Loads, Fine, AssertedFrom, NextOutcome, Managed, Registers, Cleared, Granted, Exchanges, Scoped,
           KeysOk,
           PinStorable, NewPinState;
    }

    method AnswerMake(make: Option<MakeCredentialRequest>, env: Env, ghost s: Snapshot) returns (response: Response)
      requires Valid() && Snap() == Clearing(MakeCredential(make), s) && !Refused(MakeCredential(make), env)
      requires clock <= env.now <= env.later && env.newId !in usedIds
      modifies this`credentials, this`usedIds, this`token, this`tokenLog, this`clock, this`storeHealthy, store`rows
      ensures Valid() && clock == env.later
      ensures usedIds == old(usedIds) || usedIds == old(usedIds) + {env.newId}
      ensures Outcome(MakeCredential(make), env, s, response, Snap())
    {
      hide Valid, CredentialStore.Valid, Verifies, PresentsNone, Excluded, DescriptorsOk, SavedRows, Sound, Loads,
           CheckEvents,
           CheckedToken, VerifiedBy, PinOutcome, AssertedFrom, NextOutcome, Managed, Cleared, PinRequestEvents, Granted;
      var r := HandleMakeCredential(make, env);
      response := ToResponse(r);
    }

    method AnswerGet(get: Option<GetAssertionRequest>, env: Env, ghost s: Snapshot) returns (response: Response)
      requires Valid() && Snap() == Clearing(GetAssertion(get), s) && !Refused(GetAssertion(get), env)
      requires clock <= env.now <= env.later
      modifies this`credentials, this`pending, this`pendingIntact, this`token, this`tokenLog, this`clock,
               this`storeHealthy, this`released, store`rows
      ensures Valid() && clock == env.later
      ensures Outcome(GetAssertion(get), env, s, response, Snap())
    {
      hide Valid, CredentialStore.Valid, Seen, Verifies, PresentsNone, DescriptorsOk, MatchingIndexes, AssertionFor,
           NextCount,
           Counted, Remaining, Signable, Sound, Loads, CheckEvents, CheckedToken, VerifiedBy,
           PinOutcome, NextOutcome, Managed, Registers, Cleared, PinRequestEvents, Granted;
      ghost var seen, reached, verified;
      var r;
      r, seen, reached, verified := HandleGetAssertion(get, env);
      response := ToResponse(r);
      assert AssertedFrom(get, env, s, seen, response, Snap());
    }

    method AnswerNext(bodyEmpty: bool, env: Env, ghost s: Snapshot) returns (response: Response)
      requires Valid() && Snap() == Clearing(GetNextAssertion(bodyEmpty), s) && !Refused(GetNextAssertion(bodyEmpty), env)
      requires clock <= env.now <= env.later
      modifies this`credentials, this`pending, this`pendingIntact, this`clock, this`released, store`rows
      ensures Valid() && clock == env.later
      ensures Outcome(GetNextAssertion(bodyEmpty), env, s, response, Snap())
    {
      hide Valid, CredentialStore.Valid, NextOutcome, Sound, Loads, PinOutcome, AssertedFrom, Managed, Registers,
           Cleared,
           PinRequestEvents, Granted;
      var r := HandleGetNextAssertion(bodyEmpty, env);
      response := ToResponse(r);
    }

    method AnswerManage(preview: bool, manage: Option<ManagementRequest>, env: Env, ghost s: Snapshot)
      returns (response: Response)
      requires Valid() && Snap() == Clearing(CredentialManagement(preview, manage), s)
      requires !Refused(CredentialManagement(preview, manage), env) && clock <= env.now <= env.later
      modifies this`credentials, this`management, this`pendingIntact, this`token, this`tokenLog, this`clock,
               this`storeHealthy, store`rows
      ensures Valid() && clock == env.later
      ensures Outcome(CredentialManagement(preview, manage), env, s, response, Snap())
    {
      hide Valid, CredentialStore.Valid, Admits, Managed, ManageCheck, CheckEvents, CheckedToken, Sound, Loads,
           PinOutcome,
           AssertedFrom, NextOutcome, Registers, Cleared, PinRequestEvents, Granted;
      var r := HandleManagement(manage, env);
      response := ToResponse(r);
    }

    method AnswerPin(protocol: Option<int>, pin: Option<PinRequest>, env: Env, ghost s: Snapshot)
      returns (response: Response)
      requires Valid() && Snap() == Clearing(ClientPin(protocol, pin), s) && clock <= env.later
      modifies this`clientPin, this`pinLog, this`pinHealthy, this`token, this`tokenLog, this`clock,
               this`keyAgreement, store`pin, store`pinMac
      ensures Valid() && clock == env.later
      ensures Outcome(ClientPin(protocol, pin), env, s, response, Snap())
    {
      hide Valid, CredentialStore.Valid, PinRequestEvents, Sound, Loads, SetsPin, ChangesPin, GrantsPinToken,
           GrantsUvToken,
           Exchanges, Scoped, KeysOk, ComparedPin, NewPinState, AssertedFrom, NextOutcome, Managed, Registers,
           Cleared, Fine;
      var r := HandleClientPin(protocol, pin, env);
      response := ToResponse(r);
    }

    method AnswerReset(env: Env, ghost s: Snapshot) returns (response: Response)
      requires Valid() && Snap() == Clearing(Reset, s) && clock <= env.later
      modifies this`credentials, this`pending, this`pendingIntact, this`management, this`storeHealthy, this`clientPin,
               this`pinLog, this`pinHealthy, this`keyAgreement, this`token, this`tokenLog, this`clock, store
      ensures Valid() && clock == env.later
      ensures Outcome(Reset, env, s, response, Snap())
    {
      hide Valid, CredentialStore.Valid, Cleared, Sound, Loads, Fine, PinOutcome, AssertedFrom, NextOutcome, Managed,
           Registers,
           PinRequestEvents, Granted;
      var r := HandleReset(env);
      response := ToResponse(r);
    }

    /** The commands that do nothing but answer. */
    static function PlainAnswer(request: Request, env: Env, pinSet: bool): Response {
      if Refused(request, env) then Failed(OperationDenied)
      else if request.GetInfo? then Info(pinSet)
      else if request.SelectionRequest? && Approved(env) then Done
      else Failed(if request.UnknownCommand? then InvalidCommand else OperationDenied)
    }

    lemma PlainOutcome(request: Request, env: Env, s: Snapshot)
      requires Refused(request, env) || request.GetInfo? || request.SelectionRequest? || request.UnknownCommand?
      ensures Outcome(request, env, s, PlainAnswer(request, env, s.clientPin.Some?),
                      if request.UnknownCommand? then s else Clearing(request, s))
    {
      hide Sound, Loads, Fine, PinOutcome, AssertedFrom, NextOutcome, Managed, Registers, Cleared, PinRequestEvents,
           Granted;
    }

    /** One CTAP2 command: what it clears first, then the command itself. */
    method HandleCbor(request: Request, env: Env) returns (response: Response)
      requires Valid() && clock <= env.now <= env.later && env.newId !in usedIds
      modifies this`credentials, this`usedIds, this`pending, this`pendingIntact, this`management, this`storeHealthy,
               this`clientPin, this`pinLog, this`pinHealthy, this`keyAgreement, this`token, this`tokenLog, this`clock,
               this`released, store
      ensures Valid() && clock <= env.later
      ensures usedIds == old(usedIds) || usedIds == old(usedIds) + {env.newId}
      ensures Outcome(request, env, old(Snap()), response, Snap())
    {
      hide Valid, CredentialStore.Valid, Outcome;
      ghost var s := Snap();
      if request.UnknownCommand? {
        PlainOutcome(request, env, s);
        return Failed(InvalidCommand);
      }
      ClearCursors(request);
      if Refused(request, env) {
        PlainOutcome(request, env, s);
        return Failed(OperationDenied);
      }
      match request {
        case GetInfo =>
          PlainOutcome(request, env, s);
          response := Info(clientPin.Some?);
        case ClientPin(protocol, pin) => response := AnswerPin(protocol, pin, env, s);
        case MakeCredential(make) => response := AnswerMake(make, env, s);
        case GetAssertion(get) => response := AnswerGet(get, env, s);
        case GetNextAssertion(bodyEmpty) => response := AnswerNext(bodyEmpty, env, s);
        case CredentialManagement(preview, manage) => response := AnswerManage(preview, manage, env, s);
        case Reset => response := AnswerReset(env, s);
        case SelectionRequest =>
          PlainOutcome(request, env, s);
          response := if Approved(env) then Done else Failed(OperationDenied);
      }
    }

    /** Every command but the two that continue something drops the pending assertion and
        the enumeration. */
    static function Clearing(request: Request, s: Snapshot): Snapshot {
      var continues := request.CredentialManagement? && !request.preview;
      s.(pending := if request.GetNextAssertion? || continues then s.pending else None,
         management := if continues then s.management else None)
    }

    method ClearCursors(request: Request)
      requires Valid()
      modifies this`pending, this`pendingIntact, this`management
      ensures Valid() && Snap() == Clearing(request, old(Snap()))
    {
      hide CredentialStore.Valid, CountsOk, Agree, OwnersOk, PinOk, CursorsOk, PendingOk, TokenOk, FaithfulReloads;
      NoCursorsOk(credentials, uid);
      if !request.GetNextAssertion? && !(request.CredentialManagement? && !request.preview) {
        pending, pendingIntact := None, true;
      }
      if !(request.CredentialManagement? && !request.preview) {
        management := None;
      }
    }
  }

  function Min16(b: Bytes): nat {
    if |b| < 16 then |b| else 16
  }
}
