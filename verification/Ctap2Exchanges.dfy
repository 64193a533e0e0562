/**
 What successive commands mean to each other: a PIN that was set is the one that
 passes, a granted token authenticates exactly what it was granted for, a
 registered credential can be asserted, and a cursor lasts thirty seconds. Each
 statement is about two or more steps of any run and names only requests, answers
 and what the store shows.
 */
module Ctap2Exchanges {
  import opened Bytes
  import opened Store
  import opened Database
  import opened AuthState
  import opened Selection
  import opened Ctap2
  import opened Ctap2Runs
  import Canonical
  import Cbor

  // -------------------------------------------------------------------- the PIN

  /** A clientPIN command for PIN protocol 2. */
  function PinCommand(request: PinRequest): Request {
    ClientPin(Some(2), Some(request))
  }

  /** The plain PIN that a request sets, and its decrypted block. */
  function NewPinOf(request: PinRequest): Option<NewPin> {
    match request
    case SetPin(_, newPin, _) => newPin
    case ChangePin(_, newPin, _, _) => newPin
    case _ => None
  }

  /** setPIN succeeds exactly when no PIN is set, keys were agreed on, the request is
      authentic, the PIN has 4 to 63 bytes without a zero, and its state can be stored. */
  lemma SetPinExactly(a: Authenticator, key: KeyParam, plain: Bytes, mac: bool, env: Env, s: Snapshot, response: Response,
                      s': Snapshot)
    requires a.Outcome(PinCommand(SetPin(key, Some(NewPin(true, Some(plain))), Some(mac))), env, s, response, s')
    requires |a.sha256(plain)| == 32
    ensures response == Done <==>
              && s.clientPin.None? && key.GoodKey? && s.agreed && mac && 4 <= |plain| <= 63 && 0 !in plain
              && !env.pinFault && |env.newSalt| == 32 && |a.pbkdf2(env.newSalt, a.sha256(plain)[..16])| == 32
    ensures response != Done ==> response.Failed? && s'.clientPin == s.clientPin
  {
    hide Database.Sound, Authenticator.Loads, Authenticator.Fine;
  }

  /** changePIN succeeds exactly when the same holds of the new PIN and the presented hash is
      that of the PIN set now, which has retries left. Otherwise a compared hash costs a
      retry if it is wrong and restores them all if it is right. */
  lemma ChangePinExactly(a: Authenticator, key: KeyParam, plain: Bytes, hash: Bytes, mac: bool, env: Env, s: Snapshot,
                         response: Response, s': Snapshot)
    requires a.Outcome(PinCommand(ChangePin(key, Some(NewPin(true, Some(plain))), Some(PinHash(true, hash)), Some(mac))),
                       env, s, response, s')
    requires |a.sha256(plain)| == 32
    ensures var offered := key.GoodKey? && s.agreed && mac && 4 <= |plain| <= 63 && 0 !in plain;
            var compared := s.clientPin.Some? && s.clientPin.value.retries > 0 && |hash| == 16;
            var right := compared && a.pbkdf2(s.clientPin.value.salt, hash) == s.clientPin.value.verifier;
            && (response == Done <==>
                  && offered && right
                  && !env.pinFault && |env.newSalt| == 32 && |a.pbkdf2(env.newSalt, a.sha256(plain)[..16])| == 32)
            && (response != Done ==>
                  && response.Failed?
                  && s'.clientPin == if !offered || !compared then s.clientPin
                                     else Some(s.clientPin.value.(retries :=
                                       if right then 8 else s.clientPin.value.retries - 1)))
  {
    hide Database.Sound, Authenticator.Loads, Authenticator.Fine, Authenticator.PinRequestEvents, Authenticator.Granted;
  }

  /** The PIN that is set is the PIN that passes. After a successful setPIN or changePIN, a
      well-scoped request for a token with a 16-byte PIN hash is granted exactly when the hash
      derives the same verifier as the left half of the new PIN's hash; in particular for
      that left half. A refusal costs one retry. */
  lemma SetThenToken(a: Authenticator, request: PinRequest, plain: Bytes, e0: Env, s0: Snapshot, r0: Response,
                     s1: Snapshot, hash: Bytes, permissions: set<Permission>, rpId: Option<Bytes>, e1: Env, r1: Response,
                     s2: Snapshot)
    requires request.SetPin? || request.ChangePin?
    requires NewPinOf(request).Some? && NewPinOf(request).value.plain == Some(plain) && |a.sha256(plain)| == 32
    requires a.Outcome(PinCommand(request), e0, s0, r0, s1) && r0 == Done
    requires |hash| == 16 && permissions != {} && (GetAssertionPermission in permissions ==> rpId.Some?)
    requires a.Outcome(PinCommand(GetPinToken(GoodKey, Some(PinHash(true, hash)), Some(permissions), rpId)), e1, s1, r1, s2)
    ensures r1 == TokenGranted(e1.newToken)
            <==> a.pbkdf2(e0.newSalt, hash) == a.pbkdf2(e0.newSalt, a.sha256(plain)[..16])
    ensures hash == a.sha256(plain)[..16] ==> r1 == TokenGranted(e1.newToken)
    ensures r1 == TokenGranted(e1.newToken) ==>
              s2.token == Some(Token(e1.newToken, permissions, rpId, e1.later)) && s2.clientPin == s1.clientPin
    ensures r1 != TokenGranted(e1.newToken) ==>
              r1.Failed? && s2.token == s1.token && s2.clientPin.Some? && s2.clientPin.value.retries == 7
  {
    hide Database.Sound, Authenticator.Loads, Authenticator.Fine;
  }

  /** What a clientPIN command for protocol 2 does. */
  lemma PinStep(a: Authenticator, request: PinRequest, env: Env, s: Snapshot, response: Response, s': Snapshot)
    requires a.Outcome(PinCommand(request), env, s, response, s')
    ensures a.PinDone(request, env, s, response, s')
  {
    hide Authenticator.PinDone, Database.Sound, Authenticator.Loads, Authenticator.Fine, Authenticator.PinRequestEvents,
         Authenticator.Granted;
  }

  /** Some requests for a token with wrong PIN hashes, one after the other, PIN writes
      succeeding. */
  ghost predicate WrongTries(a: Authenticator, hashes: seq<Bytes>, permissions: set<Permission>, rpId: Option<Bytes>,
                             envs: seq<Env>, states: seq<Snapshot>, responses: seq<Response>)
  {
    && |envs| == |responses| == |hashes| && |states| == |hashes| + 1
    && states[0].clientPin.Some?
    && forall i :: 0 <= i < |hashes| ==>
         && |hashes[i]| == 16 && !envs[i].pinFault
         && a.pbkdf2(states[0].clientPin.value.salt, hashes[i]) != states[0].clientPin.value.verifier
         && a.Outcome(PinCommand(GetPinToken(GoodKey, Some(PinHash(true, hashes[i])), Some(permissions), rpId)), envs[i],
                      states[i], responses[i], states[i + 1])
  }

  /** Each wrong PIN costs one of eight retries, and none is granted. */
  lemma {:induction false} TriesCost(a: Authenticator, hashes: seq<Bytes>, permissions: set<Permission>, rpId: Option<Bytes>,
                                     envs: seq<Env>, states: seq<Snapshot>, responses: seq<Response>, n: nat)
    requires WrongTries(a, hashes, permissions, rpId, envs, states, responses) && n <= |hashes|
    requires permissions != {} && (GetAssertionPermission in permissions ==> rpId.Some?)
    requires states[0].agreed && states[0].clientPin.value.retries == 8
    ensures states[n].agreed
    ensures states[n].clientPin == Some(states[0].clientPin.value.(retries := if n <= 8 then 8 - n else 0))
    ensures forall i :: 0 <= i < n ==> responses[i].Failed?
  {
    hide Authenticator.Outcome, Authenticator.PinRequestEvents, Authenticator.Granted;
    if n > 0 {
      TriesCost(a, hashes, permissions, rpId, envs, states, responses, n - 1);
      PinStep(a, GetPinToken(GoodKey, Some(PinHash(true, hashes[n - 1])), Some(permissions), rpId), envs[n - 1],
              states[n - 1], responses[n - 1], states[n - 1 + 1]);
    }
  }

  /** After any number of wrong tries, getPINRetries answers eight minus that number, at least
      zero, and the right PIN is granted a token exactly if fewer than eight were wrong. */
  lemma WrongTriesThenRight(a: Authenticator, hashes: seq<Bytes>, permissions: set<Permission>, rpId: Option<Bytes>,
                            envs: seq<Env>, states: seq<Snapshot>, responses: seq<Response>, right: Bytes, e0: Env,
                            r0: Response, s1: Snapshot, e1: Env, r1: Response, s2: Snapshot)
    requires WrongTries(a, hashes, permissions, rpId, envs, states, responses)
    requires permissions != {} && (GetAssertionPermission in permissions ==> rpId.Some?)
    requires states[0].agreed && states[0].clientPin.value.retries == 8 && |right| == 16 && !e1.pinFault
    requires a.pbkdf2(states[0].clientPin.value.salt, right) == states[0].clientPin.value.verifier
    requires a.Outcome(PinCommand(GetRetries(false)), e0, states[|hashes|], r0, s1)
    requires a.Outcome(PinCommand(GetPinToken(GoodKey, Some(PinHash(true, right)), Some(permissions), rpId)), e1, s1, r1, s2)
    ensures forall i :: 0 <= i < |hashes| ==> responses[i].Failed?
    ensures r0 == Retries(if |hashes| <= 8 then 8 - |hashes| else 0)
    ensures r1 == TokenGranted(e1.newToken) <==> |hashes| < 8
    ensures s2.clientPin.Some? && s2.clientPin.value.retries == if |hashes| < 8 then 8 else 0
  {
    var last := states[|hashes|];
    hide Authenticator.Outcome, Authenticator.PinRequestEvents, Authenticator.Granted, WrongTries;
    TriesCost(a, hashes, permissions, rpId, envs, states, responses, |hashes|);
    PinStep(a, GetRetries(false), e0, last, r0, s1);
    PinStep(a, GetPinToken(GoodKey, Some(PinHash(true, right)), Some(permissions), rpId), e1, s1, r1, s2);
  }

  // ------------------------------------------------------------------ the token

  /** A token for the user's approval is granted exactly to a platform that agreed on keys,
      for some permission, with a relying party if assertions are among them. */
  lemma UvTokenExactly(a: Authenticator, key: KeyParam, permissions: Option<set<Permission>>, rpId: Option<Bytes>, env: Env,
                       s: Snapshot, response: Response, s': Snapshot)
    requires a.Outcome(PinCommand(GetUvToken(key, permissions, rpId)), env, s, response, s')
    ensures response == TokenGranted(env.newToken) <==>
              && key.GoodKey? && s.agreed && permissions.Some? && permissions.value != {}
              && (GetAssertionPermission in permissions.value ==> rpId.Some?)
              && env.sessionBefore && env.approved && env.sessionAfter
    ensures if response == TokenGranted(env.newToken)
            then s'.token == Some(Token(env.newToken, permissions.value, rpId, env.later))
            else response.Failed? && s'.token == s.token
  {
    PinStep(a, GetUvToken(key, permissions, rpId), env, s, response, s');
  }

  /** A parameter computed with a token fits an operation: right message, permission and
      party, within 600 seconds of the grant. */
  predicate Covers(t: Token, auth: PinAuth, message: Bytes, permission: Permission, party: Option<Bytes>, env: Env) {
    && env.sessionToken && auth.protocol == Some(2) && auth.param.Some?
    && auth.param.value.tag == Mac(t.value, message) && auth.param.value.length in {16, 32}
    && permission in t.permissions && (t.rpId.None? || t.rpId == party)
    && t.issuedAt <= env.now <= t.issuedAt + 600 * SECOND
  }

  /** A parameter is presented. */
  predicate Presented(auth: PinAuth, env: Env) {
    env.sessionToken && auth.protocol == Some(2) && auth.param.Some?
  }

  /** The token of a successful grant. */
  function GrantedToken(request: PinRequest, env: Env): Option<Token> {
    match request
    case GetPinToken(_, _, permissions, rpId) =>
      if permissions.Some? then Some(Token(env.newToken, permissions.value, rpId, env.later)) else None
    case GetUvToken(_, permissions, rpId) =>
      if permissions.Some? then Some(Token(env.newToken, permissions.value, rpId, env.later)) else None
    case _ => None
  }

  lemma GrantLeaves(a: Authenticator, grant: PinRequest, env: Env, s: Snapshot, response: Response, s': Snapshot)
    requires a.Outcome(PinCommand(grant), env, s, response, s') && response.TokenGranted?
    ensures GrantedToken(grant, env).Some? && s'.token == GrantedToken(grant, env)
    ensures response.value == env.newToken
  {
    PinStep(a, grant, env, s, response, s');
  }

  /** The check of a command against a live token, in terms of the request. */
  lemma CheckExactly(t: Token, check: TokenCheck, env: Env)
    ensures Authenticator.Verifies(Some(t), check, env)
            <==> Covers(t, check.auth, check.message, check.permission, check.rpId, env)
    ensures Authenticator.Presents(check.auth, env) <==> Presented(check.auth, env)
  {
  }

  /** The token granted by one command authenticates the next exactly if it covers it; then
      the acceptance is recorded. A presented parameter that does not fit drops the token. */
  ghost predicate Authenticated(t: Token, auth: PinAuth, message: Bytes, permission: Permission, party: Option<Bytes>,
                                env: Env, s: Snapshot, s': Snapshot)
  {
    if Covers(t, auth, message, permission, party, env) then
      s'.token == Some(t) && s'.tokenLog == s.tokenLog + [Accepted(t.value, permission, party, message, env.now)]
    else if Presented(auth, env) then
      s'.token == None && s'.tokenLog == s.tokenLog + [Dropped(FailedCheck)]
    else s'.token == Some(t) && s'.tokenLog == s.tokenLog
  }

  /** Grant, then makeCredential: the authenticated message is client data hash and relying
      party. */
  lemma GrantThenMake(a: Authenticator, grant: PinRequest, e0: Env, s0: Snapshot, r0: Response, s1: Snapshot,
                      make: MakeCredentialRequest, rpId: Bytes, e1: Env, r1: Response, s2: Snapshot)
    requires a.Outcome(PinCommand(grant), e0, s0, r0, s1) && r0.TokenGranted?
    requires a.Outcome(MakeCredential(Some(make)), e1, s1, r1, s2) && e1.passphraseSet
    requires make.clientDataHash.Some? && |make.clientDataHash.value| == 32 && make.rp == Some(Some(rpId))
    requires make.user.Some? && make.user.value.id.Some? && make.supportsEs256 == Some(true) && make.attestationKnown
    ensures GrantedToken(grant, e0).Some?
    ensures var t, message := GrantedToken(grant, e0).value, make.clientDataHash.value + rpId;
            && Authenticated(t, make.auth, message, MakeCredentialPermission, Some(rpId), e1, s1, s2)
            && (r1.Registered? ==>
                  r1.verified == (make.uv || Covers(t, make.auth, message, MakeCredentialPermission, Some(rpId), e1)))
            && (Presented(make.auth, e1) && !Covers(t, make.auth, message, MakeCredentialPermission, Some(rpId), e1) ==>
                  r1.Failed?)
  {
    GrantLeaves(a, grant, e0, s0, r0, s1);
    var check := Authenticator.MakeCheck(Some(make));
    CheckExactly(s1.token.value, check.value, e1);
    hide Covers, Authenticator.Verifies, Authenticator.SavedRows, Excluded, DescriptorsOk, Database.Sound, Authenticator.Loads,
         Authenticator.Fine;
  }

  /** Grant, then getAssertion: the authenticated message is the client data hash. */
  lemma GrantThenAssert(a: Authenticator, grant: PinRequest, e0: Env, s0: Snapshot, r0: Response, s1: Snapshot,
                        get: GetAssertionRequest, e1: Env, r1: Response, s2: Snapshot)
    requires a.Outcome(PinCommand(grant), e0, s0, r0, s1) && r0.TokenGranted?
    requires a.Outcome(GetAssertion(Some(get)), e1, s1, r1, s2) && e1.passphraseSet
    requires get.rpId.Some? && get.clientDataHash.Some? && |get.clientDataHash.value| == 32
    ensures GrantedToken(grant, e0).Some?
    ensures var t, message := GrantedToken(grant, e0).value, get.clientDataHash.value;
            && Authenticated(t, get.auth, message, GetAssertionPermission, get.rpId, e1, s1, s2)
            && (r1.Asserted? ==>
                  r1.assertion.userVerified
                  == (get.uv || Covers(t, get.auth, message, GetAssertionPermission, get.rpId, e1)))
            && (Presented(get.auth, e1) && !Covers(t, get.auth, message, GetAssertionPermission, get.rpId, e1) ==>
                  r1.Failed?)
  {
    GrantLeaves(a, grant, e0, s0, r0, s1);
    CheckExactly(s1.token.value, Authenticator.GetCheck(Some(get)).value, e1);
    hide Covers, Authenticator.Verifies, MatchingIndexes, DescriptorsOk, Database.Sound, Authenticator.Loads,
         Authenticator.Fine, Authenticator.Seen, NextCount, Authenticator.Signable, Counted;
  }

  /** Grant, then credential management: the authenticated message starts with the sub-command
      byte, and a token bound to a relying party never fits. */
  lemma GrantThenManage(a: Authenticator, grant: PinRequest, e0: Env, s0: Snapshot, r0: Response, s1: Snapshot,
                        manage: ManagementRequest, preview: bool, e1: Env, r1: Response, s2: Snapshot)
    requires a.Outcome(PinCommand(grant), e0, s0, r0, s1) && r0.TokenGranted?
    requires a.Outcome(CredentialManagement(preview, Some(manage)), e1, s1, r1, s2) && (preview || e1.passphraseSet)
    requires manage.subCommand.Some? && s1.clientPin.Some? && e1.sessionFirst
    ensures GrantedToken(grant, e0).Some?
    ensures var t := GrantedToken(grant, e0).value;
            var message := Canonical.ManagementAuthMessage(manage.subCommand.value, manage.params);
            && Authenticated(t, manage.auth, message, ManagementPermission, None, e1, s1, s2)
            && (Covers(t, manage.auth, message, ManagementPermission, None, e1) ==> t.rpId.None?)
            && (!Covers(t, manage.auth, message, ManagementPermission, None, e1)
                && !(e1.sessionToken && manage.auth == PinAuth(None, None)) ==>
                  r1.Failed? && s2.credentials == s1.credentials && s2.rows == s1.rows)
  {
    GrantLeaves(a, grant, e0, s0, r0, s1);
    var check := Authenticator.ManageCheck(Some(manage), s1.clientPin, e1);
    CheckExactly(s1.token.value, check.value, e1);
    assert Authenticator.PresentsNone(manage.auth, e1) <==> e1.sessionToken && manage.auth == PinAuth(None, None);
    hide Authenticator.Verifies, Authenticator.Managed, Database.Sound, Authenticator.Loads, Authenticator.Fine,
         Canonical.ManagementAuthMessage;
  }

  // --------------------------------------------------------------- credentials

  /** The required members of a makeCredential request are there. */
  predicate Complete(make: MakeCredentialRequest) {
    && make.clientDataHash.Some? && |make.clientDataHash.value| == 32 && make.rp.Some? && make.rp.value.Some?
    && make.user.Some? && make.user.value.id.Some? && make.supportsEs256 == Some(true) && make.attestationKnown
  }

  /** The credential is the one just made for this request. */
  predicate Fresh(c: Credential, make: MakeCredentialRequest, uid: Option<u32>, env: Env)
    requires Complete(make)
  {
    && c.id == env.newId && c.rpId == make.rp.value.value && c.discoverable == make.discoverable && c.userId == uid
    && c.userHandle == make.user.value.id.value && c.userName == make.user.value.name
    && c.userDisplayName == make.user.value.displayName && c.key == env.newKey && c.recovery == env.newRecovery
    && c.policy == Some(env.newPolicy.(policyVersion := 1)) && c.signCount == 0
  }

  lemma NoneExcluded(creds: seq<Credential>, make: MakeCredentialRequest)
    requires make.rp.Some? && make.rp.value.Some?
    ensures !Excluded(creds, make.rp.value.value, make.excludeList) <==>
              forall c :: c in creds ==>
                !(make.rp == Some(Some(c.rpId)) && make.excludeList.Some? && Descriptor(c.id) in make.excludeList.value)
  {
    if c :| c in creds && make.rp == Some(Some(c.rpId)) && make.excludeList.Some?
            && Descriptor(c.id) in make.excludeList.value
    {
      var i :| 0 <= i < |creds| && creds[i] == c;
      assert ListContains(make.excludeList.value, creds[i].id);
    }
  }

  lemma MakeAuthentic(make: MakeCredentialRequest, t: Option<Token>, env: Env)
    requires Complete(make)
    ensures Authenticator.PassesCheck(t, Authenticator.MakeCheck(Some(make)), env) <==>
              || (env.sessionToken && make.auth == PinAuth(None, None))
              || (t.Some? && Covers(t.value, make.auth, make.clientDataHash.value + make.rp.value.value,
                                    MakeCredentialPermission, make.rp.value, env))
  {
    assert Authenticator.PresentsNone(make.auth, env) <==> env.sessionToken && make.auth == PinAuth(None, None);
    if t.Some? {
      CheckExactly(t.value, Authenticator.MakeCheck(Some(make)).value, env);
    }
  }

  /** makeCredential registers exactly when the request is complete, asks for ES256, excludes
      no credential of this relying party, is authentic or carries no parameter, is approved,
      and the TPM makes a key; the new credential carries what the request and the TPM gave. */
  lemma RegisterExactly(a: Authenticator, make: MakeCredentialRequest, env: Env, s: Snapshot, response: Response,
                        s': Snapshot)
    requires a.Outcome(MakeCredential(Some(make)), env, s, response, s')
    ensures response.Registered? <==>
              && env.passphraseSet && Complete(make) && make.residentKeyKnown
              && (make.excludeList.Some? ==> Malformed !in make.excludeList.value)
              && (forall c :: c in s.credentials ==>
                    !(make.rp == Some(Some(c.rpId)) && make.excludeList.Some? && Descriptor(c.id) in make.excludeList.value))
              && (|| (env.sessionToken && make.auth == PinAuth(None, None))
                  || (s.token.Some? && Covers(s.token.value, make.auth, make.clientDataHash.value + make.rp.value.value,
                                              MakeCredentialPermission, make.rp.value, env)))
              && env.sessionBefore && env.approved && env.sessionAfter && a.daemon && env.tpmOk
    ensures response.Registered? ==>
              && response.newId == env.newId && |s'.credentials| == |s.credentials| + 1
              && s'.credentials[..|s.credentials|] == s.credentials
              && Fresh(s'.credentials[|s.credentials|], make, s.uid, env)
    ensures !response.Registered? ==> response.Failed? && s'.credentials == s.credentials && s'.rows == s.rows
  {
    hide Authenticator.SavedRows, Database.Sound, Authenticator.Loads, Authenticator.Fine;
    DescriptorsExactly(make.excludeList);
    var check := Authenticator.MakeCheck(Some(make));
    if check.Some? {
      NoneExcluded(s.credentials, make);
      MakeAuthentic(make, s.token, env);
    }
  }

  /** A getAssertion for one credential id, without a parameter, that nothing hinders. */
  predicate AsksFor(get: GetAssertionRequest, id: Bytes, env: Env) {
    && get.rpId.Some? && get.clientDataHash.Some? && |get.clientDataHash.value| == 32
    && get.allowList == Some([Descriptor(id)]) && get.auth == PinAuth(None, None)
    && env.passphraseSet && env.sessionToken && env.sessionBefore && env.approved && env.sessionAfter
    && !env.loadFault && !env.storeFault && env.tpmOk
  }

  lemma StoredDistinct(creds: seq<Credential>)
    requires DistinctCredentials(creds)
    ensures DistinctIds(ToStoredAll(creds))
  {
  }

  /** A table saved for this user can be loaded by the user. */
  lemma SavedLoads(a: Authenticator, creds: seq<Credential>, key: Option<Bytes>, uid: Option<u32>, env: Env)
    requires DistinctCredentials(creds) && OwnersOk(creds, uid) && key in {None, Some(a.store.hmacKey)} && !env.loadFault
    ensures a.Loads(TableOf(ToStoredAll(creds), key), uid, env)
  {
    hide MacAccepted, MacMessage, TableOf;
    StoredDistinct(creds);
    var list := ToStoredAll(creds);
    var rows := TableOf(list, key);
    TableMacsValid(list, key, a.store.hmacKey);
    forall id | id in VisibleIds(rows, uid)
      ensures MacAccepted(FromRow(id, rows[id], uid), a.store.hmacKey)
    {
      TableLookup(list, key, id);
      var i :| 0 <= i < |list| && list[i].id == id;
      assert rows[id].meta.userId == creds[i].userId;
      assert FromRow(id, rows[id], uid) == FromRow(id, rows[id], None);
    }
  }

  /** A saved credential reads back as itself for its owner. */
  lemma ReadsBack(c: Credential, key: Option<Bytes>, uid: Option<u32>)
    requires c.userId == uid && c.policy.Some? && c.policy.value.policyVersion == 1
    ensures var row := ToRow(ToStored(c), key); Visible(row, uid) && FromStored(FromRow(c.id, row, uid)) == c
  {
    RowRoundTrip(ToStored(c), key);
  }

  /** ... and is shown to its owner once. */
  lemma SavedShown(a: Authenticator, creds: seq<Credential>, key: Option<Bytes>, k: nat, uid: Option<u32>,
                   seen: seq<Credential>, env: Env) returns (i: nat)
    requires DistinctCredentials(creds) && k < |creds| && creds[k].userId == uid
    requires creds[k].policy.Some? && creds[k].policy.value.policyVersion == 1
    requires var rows := TableOf(ToStoredAll(creds), key);
             a.Loads(rows, uid, env) && a.Shown(seen, rows, uid, env)
    ensures creds[k].id in TableOf(ToStoredAll(creds), key)
    ensures i < |seen| && seen[i] == creds[k] && forall j :: 0 <= j < |seen| && seen[j].id == creds[k].id ==> j == i
  {
    hide Authenticator.Loads, Agree, TableOf, Before, ToRow, FromRow, Visible;
    var rows := TableOf(ToStoredAll(creds), key);
    var list: seq<StoredCredential> :| Lists(list, rows, VisibleIds(rows, uid), uid) && seen == FromStoredAll(list);
    var c := creds[k];
    StoredDistinct(creds);
    TableLookup(ToStoredAll(creds), key, c.id);
    ReadsBack(c, key, uid);
    assert ToStoredAll(creds)[k].id == c.id;
    assert c.id in VisibleIds(rows, uid) && HasId(list, c.id);
    i :| 0 <= i < |list| && list[i].id == c.id;
    LoadEstablishes(list, rows, uid);
  }

  /** Among the credentials shown, only the named one can match. */
  lemma OnlyMatch(seen: seq<Credential>, rpId: Bytes, id: Bytes, i: nat)
    requires i < |seen| && seen[i].id == id && forall j :: 0 <= j < |seen| && seen[j].id == id ==> j == i
    ensures MatchingIndexes(seen, rpId, Some([Descriptor(id)])) == if seen[i].rpId == rpId then [i] else []
  {
    var indexes := MatchingIndexes(seen, rpId, Some([Descriptor(id)]));
    hide MatchingIndexes;
    MatchingIsExact(seen, rpId, Some([Descriptor(id)]));
    assert |indexes| >= 2 ==> indexes[0] < indexes[1];
    forall x | 0 <= x < |indexes|
      ensures indexes[x] == i && seen[i].rpId == rpId
    {
      assert indexes[x] in indexes;
    }
    assert |indexes| < 2 && (indexes == [] || (indexes[0] == i && seen[i].rpId == rpId));
    if seen[i].rpId == rpId {
      assert i in indexes && indexes == [i];
    }
  }

  lemma RegisterSaves(a: Authenticator, make: MakeCredentialRequest, env: Env, s: Snapshot, response: Response,
                      s': Snapshot) returns (key: Option<Bytes>)
    requires a.Outcome(MakeCredential(Some(make)), env, s, response, s') && response.Registered? && !env.storeFault
    ensures s'.rows == TableOf(ToStoredAll(s'.credentials), key) && key in {None, Some(a.store.hmacKey)} && s'.uid == s.uid
  {
    hide Database.Sound, Authenticator.Loads, Authenticator.Fine, TableOf, Authenticator.Registers;
    key := if env.keyReadable then Some(a.store.hmacKey) else None;
  }

  lemma LooksAtShown(a: Authenticator, get: GetAssertionRequest, id: Bytes, env: Env, s: Snapshot, response: Response,
                     s': Snapshot) returns (seen: seq<Credential>)
    requires a.Outcome(GetAssertion(Some(get)), env, s, response, s') && AsksFor(get, id, env) && a.daemon
    ensures a.AssertedFrom(Some(get), env, s, seen, response, s') && a.Shown(seen, s.rows, s.uid, env)
  {
    hide Database.Sound, Authenticator.Loads, Authenticator.Fine, Authenticator.Shown, MatchingIndexes, Counted;
    seen :| a.AssertedFrom(Some(get), env, s, seen, response, s');
  }

  /** The answer to a request for one credential. */
  lemma AskAnswered(a: Authenticator, get: GetAssertionRequest, id: Bytes, env: Env, s: Snapshot, seen: seq<Credential>,
                    i: nat, response: Response, s': Snapshot)
    requires a.AssertedFrom(Some(get), env, s, seen, response, s') && AsksFor(get, id, env) && a.daemon
    requires i < |seen| && seen[i].id == id && forall j :: 0 <= j < |seen| && seen[j].id == id ==> j == i
    requires id in s.rows && seen[i].policy.Some? && seen[i].policy.value.policyVersion == 1
    ensures if get.rpId != Some(seen[i].rpId) then response.Failed?
            else response == Asserted(Assertion(id, get.rpId.value, get.uv,
                                                if seen[i].signCount < 0xffff_ffff then seen[i].signCount + 1
                                                else seen[i].signCount,
                                                get.clientDataHash.value, seen[i].userHandle,
                                                if get.uv then seen[i].userName else None,
                                                if get.uv then seen[i].userDisplayName else None, None))
  {
    hide MatchingIndexes, Counted, Authenticator.Seen;
    OnlyMatch(seen, get.rpId.value, id, i);
  }

  lemma FreshShown(a: Authenticator, make: MakeCredentialRequest, e0: Env, s1: Snapshot, key: Option<Bytes>,
                   seen: seq<Credential>, e1: Env) returns (i: nat)
    requires Histories(s1) && Complete(make) && s1.credentials != []
    requires Fresh(s1.credentials[|s1.credentials| - 1], make, s1.uid, e0)
    requires s1.rows == TableOf(ToStoredAll(s1.credentials), key) && key in {None, Some(a.store.hmacKey)}
    requires a.Shown(seen, s1.rows, s1.uid, e1) && !e1.loadFault
    ensures e0.newId in s1.rows && i < |seen| && Fresh(seen[i], make, s1.uid, e0)
    ensures forall j :: 0 <= j < |seen| && seen[j].id == e0.newId ==> j == i
  {
    SavedLoads(a, s1.credentials, key, s1.uid, e1);
    i := SavedShown(a, s1.credentials, key, |s1.credentials| - 1, s1.uid, seen, e1);
  }

  /** A registered credential can be asserted: through store and reload, for its relying
      party only, with the user handle it was made for, names for a verified user, and the
      count 1. */
  lemma RegisterThenAssert(a: Authenticator, make: MakeCredentialRequest, e0: Env, s0: Snapshot, r0: Response, s1: Snapshot,
                           get: GetAssertionRequest, e1: Env, r1: Response, s2: Snapshot)
    requires a.Outcome(MakeCredential(Some(make)), e0, s0, r0, s1) && r0.Registered? && !e0.storeFault && Histories(s1)
    requires a.Outcome(GetAssertion(Some(get)), e1, s1, r1, s2) && AsksFor(get, r0.newId, e1)
    ensures Complete(make)
    ensures var user := make.user.value;
            if get.rpId != make.rp.value then r1.Failed?
            else r1 == Asserted(Assertion(e0.newId, get.rpId.value, get.uv, 1, get.clientDataHash.value, user.id.value,
                                          if get.uv then user.name else None,
                                          if get.uv then user.displayName else None, None))
  {
    hide Authenticator.Outcome, Authenticator.AssertedFrom, Authenticator.Shown, Histories, TableOf, Covers;
    RegisterExactly(a, make, e0, s0, r0, s1);
    var key := RegisterSaves(a, make, e0, s0, r0, s1);
    var seen := LooksAtShown(a, get, r0.newId, e1, s1, r1, s2);
    var i := FreshShown(a, make, e0, s1, key, seen, e1);
    AskAnswered(a, get, r0.newId, e1, s1, seen, i, r1, s2);
  }

  // ------------------------------------------------------ credential management

  /** A management command reaches its sub-command: the session is unchanged, a PIN is set,
      and the command carries no parameter or the live token covers its message. */
  predicate Reached(manage: ManagementRequest, preview: bool, env: Env, s: Snapshot) {
    && (preview || env.passphraseSet) && env.sessionFirst && env.sessionToken && manage.subCommand.Some?
    && s.clientPin.Some?
    && (|| manage.auth == PinAuth(None, None)
        || (s.token.Some? && Covers(s.token.value, manage.auth,
                                    Canonical.ManagementAuthMessage(manage.subCommand.value, manage.params),
                                    ManagementPermission, None, env)))
  }

  lemma ReachedExactly(a: Authenticator, manage: ManagementRequest, preview: bool, env: Env, s: Snapshot,
                       response: Response, s': Snapshot)
    requires a.Outcome(CredentialManagement(preview, Some(manage)), env, s, response, s')
    ensures if Reached(manage, preview, env, s) then
              a.Managed(manage, env, s.uid, s.credentials, s.rows, if preview then None else s.management,
                        FromResponse(response), s'.credentials, s'.rows, s'.management)
            else response.Failed? && s'.credentials == s.credentials && s'.rows == s.rows
  {
    hide Authenticator.Managed, Database.Sound, Authenticator.Loads, Authenticator.Fine, Canonical.ManagementAuthMessage;
    var check := Authenticator.ManageCheck(Some(manage), s.clientPin, env);
    if check.Some? {
      assert Authenticator.PresentsNone(manage.auth, env) <==> env.sessionToken && manage.auth == PinAuth(None, None);
      if s.token.Some? {
        CheckExactly(s.token.value, check.value, env);
      }
    }
  }

  /** A credential descriptor for an id: a map with the key "id". */
  function DescriptorOf(id: Bytes): Cbor.Entry {
    Cbor.Entry(Cbor.Integer(2), Cbor.Map([Cbor.Entry(Cbor.Text([0x69, 0x64]), Cbor.ByteString(id))]))
  }

  function Optional(key: Bytes, value: Option<Cbor.Value>): seq<Cbor.Entry> {
    if value.Some? then [Cbor.Entry(Cbor.Text(key), value.value)] else []
  }

  function AsText(text: Option<Bytes>): Option<Cbor.Value> {
    if text.Some? then Some(Cbor.Text(text.value)) else None
  }

  /** A user entity with the keys "id", "name" and "displayName", each of them optional. */
  function UserOf(user: UserEntity): seq<Cbor.Entry> {
    Optional([0x69, 0x64], if user.id.Some? then Some(Cbor.ByteString(user.id.value)) else None)
    + Optional([0x6e, 0x61, 0x6d, 0x65], AsText(user.name))
    + Optional([0x64, 0x69, 0x73, 0x70, 0x6c, 0x61, 0x79, 0x4e, 0x61, 0x6d, 0x65], AsText(user.displayName))
  }

  /** The parameters of deleteCredential and updateUserInformation. */
  function Delete(id: Bytes, auth: PinAuth): ManagementRequest {
    ManagementRequest(Some(6), Some([DescriptorOf(id)]), auth)
  }

  function Update(id: Bytes, user: UserEntity, auth: PinAuth): ManagementRequest {
    ManagementRequest(Some(7), Some([DescriptorOf(id), Cbor.Entry(Cbor.Integer(3), Cbor.Map(UserOf(user)))]), auth)
  }

  /** The position of a discoverable credential. */
  predicate At(creds: seq<Credential>, id: Bytes, k: nat) {
    k < |creds| && creds[k].id == id && creds[k].discoverable
  }

  lemma NamesId(params: seq<Cbor.Entry>, id: Bytes)
    requires params != [] && params[0] == DescriptorOf(id)
    ensures NamedId(Some(params)) == Ok(id)
  {
    var inner := [Cbor.Entry(ID, Cbor.ByteString(id))];
    assert MapBytes(inner, ID) == Some(id);
    assert MapMap(params, Cbor.Integer(2)) == Some(inner);
  }

  lemma FoundAt(creds: seq<Credential>, id: Bytes)
    ensures PositionOf(creds, id) < |creds| <==> exists k: nat :: At(creds, id, k)
    ensures PositionOf(creds, id) < |creds| ==> At(creds, id, PositionOf(creds, id))
  {
    if PositionOf(creds, id) < |creds| {
      assert At(creds, id, PositionOf(creds, id));
    }
    if k: nat :| At(creds, id, k) {
      assert IsNamed(creds[k], id);
    }
  }

  lemma WithoutHas(creds: seq<Credential>, k: nat)
    requires DistinctCredentials(creds) && k < |creds|
    ensures forall c :: c in Without(creds, k) <==> c in creds && c.id != creds[k].id
  {
    forall c
      ensures c in Without(creds, k) <==> c in creds && c.id != creds[k].id
    {
      if c in Without(creds, k) {
        var i :| 0 <= i < |Without(creds, k)| && Without(creds, k)[i] == c;
        WithoutAt(creds, k, i);
      }
      if c in creds && c.id != creds[k].id {
        var i :| 0 <= i < |creds| && creds[i] == c;
        KeptAt(creds, k, i);
      }
    }
  }

  /** deleteCredential removes the discoverable credential with the id from cache and store,
      and no other; it does so exactly if there is one that the store can delete. */
  lemma DeleteExactly(a: Authenticator, id: Bytes, auth: PinAuth, preview: bool, env: Env, s: Snapshot,
                      response: Response, s': Snapshot)
    requires a.Outcome(CredentialManagement(preview, Some(Delete(id, auth))), env, s, response, s')
    requires DistinctCredentials(s.credentials)
    ensures response == Done <==>
              && Reached(Delete(id, auth), preview, env, s) && (exists k: nat :: At(s.credentials, id, k))
              && !env.storeFault && id in s.rows
    ensures response == Done ==>
              s'.rows == s.rows - {id} && forall c :: c in s'.credentials <==> c in s.credentials && c.id != id
    ensures response != Done ==> response.Failed? && s'.credentials == s.credentials && s'.rows == s.rows
  {
    hide Authenticator.Outcome, Canonical.ManagementAuthMessage, Covers, Without, Authenticator.Enumeration;
    ReachedExactly(a, Delete(id, auth), preview, env, s, response, s');
    NamesId(Delete(id, auth).params.value, id);
    var k := PositionOf(s.credentials, id);
    FoundAt(s.credentials, id);
    if k < |s.credentials| {
      WithoutHas(s.credentials, k);
    }
  }

  function Renamed(c: Credential, user: UserEntity): Credential {
    c.(userHandle := if user.id.Some? then user.id.value else c.userHandle,
       userName := user.name, userDisplayName := user.displayName)
  }

  lemma NamesUser(params: seq<Cbor.Entry>, user: UserEntity)
    requires |params| == 2 && params[0].key == Cbor.Integer(2)
    requires params[1] == Cbor.Entry(Cbor.Integer(3), Cbor.Map(UserOf(user)))
    ensures MapMap(params, Cbor.Integer(3)) == Some(UserOf(user))
    ensures forall c :: UpdatedUser(c, UserOf(user)) == Renamed(c, user)
  {
    assert Canonical.MapValue(params[1..], Cbor.Integer(3)) == Some(params[1].value);
    UserReads(user);
  }

  lemma UserReads(user: UserEntity)
    ensures MapBytes(UserOf(user), ID) == user.id
    ensures MapText(UserOf(user), NAME) == user.name
    ensures MapText(UserOf(user), DISPLAY_NAME) == user.displayName
  {
    var id := Optional([0x69, 0x64], if user.id.Some? then Some(Cbor.ByteString(user.id.value)) else None);
    var name := Optional([0x6e, 0x61, 0x6d, 0x65], AsText(user.name));
    var display := Optional([0x64, 0x69, 0x73, 0x70, 0x6c, 0x61, 0x79, 0x4e, 0x61, 0x6d, 0x65], AsText(user.displayName));
    LookupAppended(id, name, display, ID);
    LookupAppended(id, name, display, NAME);
    LookupAppended(id, name, display, DISPLAY_NAME);
  }

  lemma LookupAppended(x: seq<Cbor.Entry>, y: seq<Cbor.Entry>, z: seq<Cbor.Entry>, key: Cbor.Value)
    requires |x| <= 1 && |y| <= 1
    ensures Canonical.MapValue(x + y + z, key)
         == if x != [] && Canonical.Matches(x[0].key, key) then Some(x[0].value)
            else if y != [] && Canonical.Matches(y[0].key, key) then Some(y[0].value)
            else Canonical.MapValue(z, key)
  {
    assert x != [] ==> (x + y + z)[1..] == y + z;
    assert y != [] ==> (y + z)[1..] == z;
    assert x == [] ==> x + y + z == y + z;
    assert y == [] ==> y + z == z;
  }

  /** updateUserInformation gives the credential the names of the request, absent ones
      erased, and its user handle if it has one; nothing else changes. */
  lemma UpdateExactly(a: Authenticator, id: Bytes, user: UserEntity, auth: PinAuth, preview: bool, env: Env, s: Snapshot,
                      response: Response, s': Snapshot)
    requires a.Outcome(CredentialManagement(preview, Some(Update(id, user, auth))), env, s, response, s')
    ensures response == Done <==>
              Reached(Update(id, user, auth), preview, env, s) && exists k: nat :: At(s.credentials, id, k)
    ensures response == Done ==>
              exists k: nat :: && At(s.credentials, id, k)
                               && s'.credentials == s.credentials[k := Renamed(s.credentials[k], user)]
    ensures response == Done && !env.storeFault ==>
              s'.rows == TableOf(ToStoredAll(s'.credentials), if env.keyReadable then Some(a.store.hmacKey) else None)
    ensures response != Done ==> response.Failed? && s'.credentials == s.credentials && s'.rows == s.rows
  {
    hide Authenticator.Outcome, Canonical.ManagementAuthMessage, Covers, Authenticator.Enumeration, TableOf;
    ReachedExactly(a, Update(id, user, auth), preview, env, s, response, s');
    var params := Update(id, user, auth).params.value;
    NamesId(params, id);
    NamesUser(params, user);
    FoundAt(s.credentials, id);
  }

  // ------------------------------------------------------------ time and refusals

  /** Without a daemon passphrase the four commands that use credentials are denied and
      change nothing that lasts. */
  lemma NothingWithoutPassphrase(a: Authenticator, request: Request, env: Env, s: Snapshot, response: Response, s': Snapshot)
    requires a.Outcome(request, env, s, response, s') && !env.passphraseSet
    requires request.MakeCredential? || request.GetAssertion? || request.GetNextAssertion?
             || (request.CredentialManagement? && !request.preview)
    ensures response == Failed(OperationDenied)
    ensures s'.credentials == s.credentials && s'.rows == s.rows && s'.token == s.token && s'.released == s.released
  {
    hide Database.Sound, Authenticator.Loads, Authenticator.Fine;
  }

  /** A reset is done exactly when the user approves it. It leaves no PIN, no token if there
      was a PIN, no credentials, and no row it could delete. */
  lemma ResetExactly(a: Authenticator, env: Env, s: Snapshot, response: Response, s': Snapshot)
    requires a.Outcome(Reset, env, s, response, s')
    ensures response == Done <==> env.sessionBefore && env.approved && env.sessionAfter
    ensures response == Done ==>
              && s'.credentials == [] && s'.clientPin == None && s'.pending == None && s'.management == None
              && s'.token == if s.clientPin.Some? then None else s.token
    ensures response == Done && (forall i :: 0 <= i < |s.credentials| ==> !env.deleteFault(i)) ==>
              forall c :: c in s.credentials ==> c.id !in s'.rows
    ensures response != Done ==>
              response.Failed? && s'.credentials == s.credentials && s'.rows == s.rows && s'.clientPin == s.clientPin
  {
    hide Database.Sound, Authenticator.Loads, Authenticator.Fine;
  }

  /** Thirty seconds after an assertion, or in another session, nothing follows it. */
  lemma LateNext(a: Authenticator, get: GetAssertionRequest, e0: Env, s0: Snapshot, r0: Response, s1: Snapshot, e1: Env,
                 r1: Response, s2: Snapshot)
    requires a.Outcome(GetAssertion(Some(get)), e0, s0, r0, s1) && s1.pending.Some?
    requires a.Outcome(GetNextAssertion(true), e1, s1, r1, s2) && e1.passphraseSet
    requires e1.now > e0.later + 30 * SECOND || !e1.sessionFirst
    ensures r1 == Failed(OperationDenied) && s2.pending == None
    ensures s2.credentials == s1.credentials && s2.rows == s1.rows && s2.released == s1.released
  {
    hide Database.Sound, Authenticator.Loads, Authenticator.Fine, MatchingIndexes, Authenticator.Seen, Counted;
  }

  /** Thirty seconds after it began, nothing follows an enumeration. */
  lemma LateEnumeration(a: Authenticator, begin: ManagementRequest, preview: bool, e0: Env, s0: Snapshot, r0: Response,
                        s1: Snapshot, next: ManagementRequest, e1: Env, r1: Response, s2: Snapshot)
    requires begin.subCommand in {Some(2), Some(4)} && next.subCommand in {Some(3), Some(5)}
    requires a.Outcome(CredentialManagement(preview, Some(begin)), e0, s0, r0, s1) && !r0.Failed?
    requires a.Outcome(CredentialManagement(false, Some(next)), e1, s1, r1, s2)
    requires e1.now > e0.later + 30 * SECOND
    ensures r1.Failed? && s2.credentials == s1.credentials && s2.rows == s1.rows
  {
    hide Authenticator.Outcome, Canonical.ManagementAuthMessage, Covers, RpIndexes, HashIndexes;
    ReachedExactly(a, begin, preview, e0, s0, r0, s1);
    ReachedExactly(a, next, false, e1, s1, r1, s2);
  }
}
