/**
 Whole runs of the authenticator: any sequence of commands, cancels, restarts and
 management writes; a complete multi-assertion exchange; and a complete
 enumeration through the credential management cursors.
 */
module Ctap2Runs {
  import opened Bytes
  import opened Store
  import opened Database
  import opened AuthState
  import opened Selection
  import opened Ctap2
  import Canonical
  import Cbor

  // -------------------------------------------------------------- any run

  datatype Op =
    | Command(request: Request, env: Env)
    | Cancel
    | RestartAs(uid: Option<u32>, env: Env)
    | PolicyWrite(id: Bytes, policy: StoredPcrPolicy, fault: bool)
    | RecoveryWrite(id: Bytes, private: Bytes, salt: Bytes, hash: Bytes, kdf: RecoveryKdf, fault: bool)

  predicate HasEnv(op: Op) {
    op.Command? || op.RestartAs?
  }

  /** Time moves on from operation to operation and new credential ids are new. */
  ghost predicate Plausible(ops: seq<Op>, clock: nat, used: set<Bytes>) {
    && (forall i :: 0 <= i < |ops| && HasEnv(ops[i]) ==>
          clock <= ops[i].env.now <= ops[i].env.later && ops[i].env.newId !in used)
    && (forall i, j :: 0 <= i < j < |ops| && HasEnv(ops[i]) && HasEnv(ops[j]) ==>
          ops[i].env.later <= ops[j].env.now && ops[i].env.newId != ops[j].env.newId)
  }

  predicate IsReset(op: Op) {
    op.Command? && op.request.Reset?
  }

  /** A command that succeeds only with the right PIN. */
  predicate NeedsPin(op: Op) {
    && op.Command? && op.request.ClientPin? && op.request.pin.Some?
    && (op.request.pin.value.ChangePin? || op.request.pin.value.GetPinToken?)
  }

  /** No operation resets. */
  ghost predicate NoReset(ops: seq<Op>) {
    forall i :: 0 <= i < |ops| ==> !IsReset(ops[i])
  }

  ghost predicate NoRestart(ops: seq<Op>) {
    forall i :: 0 <= i < |ops| ==> !ops[i].RestartAs?
  }

  ghost predicate PinWritesSucceed(ops: seq<Op>) {
    forall i :: 0 <= i < |ops| && HasEnv(ops[i]) ==> !ops[i].env.pinFault
  }

  /** The store fails at no operation. */
  ghost predicate StoreFine(ops: seq<Op>) {
    forall i :: 0 <= i < |ops| && HasEnv(ops[i]) ==> Authenticator.Fine(ops[i].env)
  }

  /** The MAC key is never readable, so no MAC is ever checked. */
  ghost predicate KeyHidden(ops: seq<Op>) {
    forall i :: 0 <= i < |ops| && HasEnv(ops[i]) ==> !ops[i].env.keyReadable
  }

  /** Every session has a user. */
  ghost predicate SessionsOwned(ops: seq<Op>) {
    forall i :: 0 <= i < |ops| && ops[i].RestartAs? ==> ops[i].uid.Some?
  }

  ghost predicate Blocked(pin: Option<StoredPin>) {
    pin.Some? && pin.value.retries == 0
  }

  /** The counts that the responses of a run carry. */
  function ReleasesOf(responses: seq<Response>): seq<Release> {
    if responses == [] then []
    else
      var r := responses[|responses| - 1];
      ReleasesOf(responses[..|responses| - 1])
      + if r.Asserted? then [Release(r.assertion.id, r.assertion.signCount)] else []
  }

  /** What holds in every reachable state. */
  ghost predicate Histories(s: Snapshot) {
    && Increasing(s.released) && AllJustified(s.tokenLog) && IssuesScoped(s.tokenLog) && NeverGuessedLate(s.pinLog)
    && (s.pinHealthy ==> FaithfulReloads(s.pinLog) && s.storedPin == s.clientPin)
    && (s.clientPin.Some? ==> WrongSince(s.pinLog) + s.clientPin.value.retries == PIN_RETRIES)
    && (s.storeHealthy ==> Agree(s.credentials, s.rows, s.uid))
    && CursorsOk(s.management, s.credentials) && DistinctCredentials(s.credentials) && OwnersOk(s.credentials, s.uid)
  }

  lemma ValidGivesHistories(a: Authenticator)
    requires a.Valid()
    ensures Histories(a.Snap())
  {
  }

  /** What one operation answers and leaves. */
  ghost predicate Stepped(a: Authenticator, op: Op, s: Snapshot, response: Response, s': Snapshot) {
    match op
    case Command(request, env) => a.Outcome(request, env, s, response, s')
    case Cancel =>
      && response == Done
      && s' == s.(pending := None, management := None, token := None, agreed := false,
                  tokenLog := s.tokenLog + [Dropped(Cancelled)])
    case RestartAs(uid, env) =>
      && response == Done && s'.uid == uid && s'.pending == None && s'.management == None && s'.token == None
      && !s'.agreed && s'.rows == s.rows && s'.storedPin == s.storedPin && s'.released == s.released
      && s'.tokenLog == s.tokenLog + [Dropped(Restarted)]
      && s'.clientPin == (if env.pinFault then None else s.storedPin)
      && s'.pinLog == s.pinLog + (if s'.clientPin.Some? then [PinReloaded(s'.clientPin.value.retries)] else [])
      && (s'.pinHealthy <==> s.pinHealthy && !env.pinFault)
      && (s'.storeHealthy <==> a.Loads(s.rows, uid, env)) && a.Shown(s'.credentials, s.rows, uid, env)
    case PolicyWrite(id, policy, fault) =>
      && response == Done
      && s' == s.(rows := if !fault && id in s.rows then s.rows[id := WithPolicy(s.rows[id], policy)] else s.rows)
    case RecoveryWrite(id, private, salt, hash, kdf, fault) =>
      && response == Done
      && s' == s.(rows := if !fault && id in s.rows && s.rows[id].recovery.Some?
                          then s.rows[id := WithRecovery(s.rows[id], private, salt, hash, kdf)] else s.rows)
  }

  function Latest(op: Op, clock: nat): nat {
    if HasEnv(op) then op.env.later else clock
  }

  /** One operation of a run. */
  method Step(a: Authenticator, op: Op) returns (response: Response)
    requires a.Valid()
    requires HasEnv(op) ==> a.clock <= op.env.now <= op.env.later && op.env.newId !in a.usedIds
    modifies a, a.store
    ensures a.Valid() && Histories(a.Snap())
    ensures a.clock <= Latest(op, old(a.clock))
    ensures a.usedIds <= old(a.usedIds) + (if HasEnv(op) then {op.env.newId} else {})
    ensures Stepped(a, op, old(a.Snap()), response, a.Snap())
  {
    hide CredentialStore.Valid, Authenticator.Valid, Authenticator.Outcome, Authenticator.Loads, Authenticator.Shown,
         Histories,
         Database.Sound;
    match op {
      case Command(request, env) => response := a.HandleCbor(request, env);
      case Cancel =>
        a.CancelPending();
        response := Done;
      case RestartAs(uid, env) =>
        a.Restart(uid, env);
        response := Done;
      case PolicyWrite(id, policy, fault) =>
        var _ := a.StorePolicy(id, policy, fault);
        response := Done;
      case RecoveryWrite(id, private, salt, hash, kdf, fault) =>
        var _ := a.StoreRecovery(id, private, salt, hash, kdf, fault);
        response := Done;
    }
    ValidGivesHistories(a);
  }

  /** The states and answers of a run. */
  ghost predicate IsRun(a: Authenticator, ops: seq<Op>, states: seq<Snapshot>, responses: seq<Response>) {
    && |states| == |ops| + 1 && |responses| == |ops|
    && (forall i :: 0 <= i < |ops| ==> Stepped(a, ops[i], states[i], responses[i], states[i + 1]))
    && (forall i :: 0 <= i < |states| ==> Histories(states[i]))
  }

  /** Every run. In each of its states the released counts of a credential strictly
      increase until they saturate, every accepted token goes back to an issue that still
      counted, and eight wrong PINs in a row are never followed by a right one. The
      histories only grow, by exactly the events of each command. The counts released are
      those in the answers. While the store does not fail, the cache agrees with the
      visible rows after every operation. Once the PIN is blocked it stays blocked until a
      reset, across restarts too when PIN writes succeed. */
  method Run(a: Authenticator, ops: seq<Op>) returns (responses: seq<Response>, ghost states: seq<Snapshot>)
    requires a.Valid() && Plausible(ops, a.clock, a.usedIds)
    modifies a, a.store
    ensures a.Valid() && IsRun(a, ops, states, responses)
    ensures states[0] == old(a.Snap()) && states[|ops|] == a.Snap()
    ensures a.released == old(a.released) + ReleasesOf(responses)
    ensures old(a.tokenLog) <= a.tokenLog && old(a.pinLog) <= a.pinLog
    ensures old(a.pinHealthy) && PinWritesSucceed(ops) ==> a.pinHealthy
    ensures old(a.storeHealthy) && StoreFine(ops)
            && (KeyHidden(ops) || (Sound(old(a.store.rows), a.store.hmacKey) && old(a.uid).Some? && SessionsOwned(ops))) ==>
              forall i :: 0 <= i < |states| ==> Agree(states[i].credentials, states[i].rows, states[i].uid)
    ensures Blocked(old(a.clientPin)) && NoReset(ops)
            && (NoRestart(ops) || (old(a.pinHealthy) && PinWritesSucceed(ops))) ==>
              && (forall i :: 0 <= i < |states| ==> Blocked(states[i].clientPin))
              && (forall i :: 0 <= i < |ops| && NeedsPin(ops[i]) ==> responses[i].Failed?)
  {
    hide CredentialStore.Valid, Authenticator.Valid, Histories, Stepped, NeedsPin, IsReset, ReleasesOf, Agree,
         Database.Sound,
         Authenticator.Fine, Blocked;
    responses, states := [], [a.Snap()];
    ValidGivesHistories(a);
    for i := 0 to |ops|
      invariant a.Valid() && |responses| == i && |states| == i + 1
      invariant states[0] == old(a.Snap()) && states[i] == a.Snap()
      invariant forall k :: i <= k < |ops| && HasEnv(ops[k]) ==>
                  a.clock <= ops[k].env.now <= ops[k].env.later && ops[k].env.newId !in a.usedIds
      invariant forall k :: 0 <= k < i ==> Stepped(a, ops[k], states[k], responses[k], states[k + 1])
      invariant forall k :: 0 <= k < |states| ==> Histories(states[k])
    {
      var response := Step(a, ops[i]);
      responses, states := responses + [response], states + [a.Snap()];
    }
    RunTheorems(a, ops, states, responses);
  }

  /** Every run from a first start on a store whose rows have owners and valid MACs, in
      sessions with users, while neither store nor PIN writes fail: cache and visible rows
      agree after every operation, and the PIN state in memory is the stored one. */
  method RunFromStart(store: CredentialStore, sha256: Bytes -> Bytes, pbkdf2: (Bytes, Bytes) -> Bytes, daemon: bool,
                      uid: u32, env: Env, ops: seq<Op>)
    returns (a: Authenticator, responses: seq<Response>, ghost states: seq<Snapshot>)
    requires store.Valid() && Sound(store.rows, store.hmacKey) && !env.loadFault && !env.pinFault
    requires Plausible(ops, env.now, store.rows.Keys) && StoreFine(ops) && SessionsOwned(ops) && PinWritesSucceed(ops)
    modifies store
    ensures a.Valid() && a.store == store && IsRun(a, ops, states, responses) && states[|ops|] == a.Snap()
    ensures a.released == ReleasesOf(responses)
    ensures forall i :: 0 <= i < |states| ==> Agree(states[i].credentials, states[i].rows, states[i].uid)
    ensures a.pinHealthy && store.pin == a.clientPin
  {
    hide Authenticator.Valid, Stepped, Agree, Database.Sound, MacAccepted, Authenticator.Shown, Plausible, StoreFine,
         ReleasesOf;
    SoundLoads(store.rows, Some(uid), store.hmacKey, env.keyReadable);
    a := new Authenticator(store, sha256, pbkdf2, daemon, Some(uid), env);
    responses, states := Run(a, ops);
  }

  /** What follows for every run. */
  lemma RunTheorems(a: Authenticator, ops: seq<Op>, states: seq<Snapshot>, responses: seq<Response>)
    requires IsRun(a, ops, states, responses)
    ensures var s, s' := states[0], states[|ops|];
            && s'.released == s.released + ReleasesOf(responses)
            && s.tokenLog <= s'.tokenLog && s.pinLog <= s'.pinLog
            && (s.pinHealthy && PinWritesSucceed(ops) ==> s'.pinHealthy)
            && (s.storeHealthy && StoreFine(ops)
                && (KeyHidden(ops) || (Sound(s.rows, a.store.hmacKey) && s.uid.Some? && SessionsOwned(ops))) ==>
                  forall i :: 0 <= i < |states| ==> Agree(states[i].credentials, states[i].rows, states[i].uid))
            && (Blocked(s.clientPin) && NoReset(ops) && (NoRestart(ops) || (s.pinHealthy && PinWritesSucceed(ops))) ==>
                  && (forall i :: 0 <= i < |states| ==> Blocked(states[i].clientPin))
                  && (forall i :: 0 <= i < |ops| && NeedsPin(ops[i]) ==> responses[i].Failed?))
  {
    hide Histories, Stepped, NeedsPin, ReleasesOf, Agree, Database.Sound, Blocked, PinWritesSucceed, StoreFine,
         KeyHidden,
         SessionsOwned, NoReset, NoRestart;
    var n := |ops|;
    assert responses[..n] == responses;
    GrowsTo(a, ops, states, responses, n);
    if states[0].pinHealthy && PinWritesSucceed(ops) {
      PinHealthyAt(a, ops, states, responses, n);
    }
    if states[0].storeHealthy && StoreFine(ops)
       && (KeyHidden(ops) || (Sound(states[0].rows, a.store.hmacKey) && states[0].uid.Some? && SessionsOwned(ops)))
    {
      forall i | 0 <= i < |states|
        ensures Agree(states[i].credentials, states[i].rows, states[i].uid)
      {
        StoreHealthyAt(a, ops, states, responses, i);
        HealthyAgrees(states[i]);
      }
    }
    if Blocked(states[0].clientPin) && NoReset(ops) && (NoRestart(ops) || (states[0].pinHealthy && PinWritesSucceed(ops))) {
      forall i | 0 <= i < |states|
        ensures Blocked(states[i].clientPin)
      {
        BlockedAt(a, ops, states, responses, i);
      }
      forall i | 0 <= i < |ops| && NeedsPin(ops[i])
        ensures responses[i].Failed?
      {
        BlockedAt(a, ops, states, responses, i);
        BlockedStep(a, ops, states, responses, i);
      }
    }
  }

  lemma HealthyAgrees(s: Snapshot)
    requires Histories(s) && s.storeHealthy
    ensures Agree(s.credentials, s.rows, s.uid)
  {
  }

  /** Histories grow by each step, and the counts by those answered. */
  lemma {:induction false} GrowsTo(a: Authenticator, ops: seq<Op>, states: seq<Snapshot>, responses: seq<Response>, n: nat)
    requires IsRun(a, ops, states, responses) && n <= |ops|
    ensures states[n].released == states[0].released + ReleasesOf(responses[..n])
    ensures states[0].tokenLog <= states[n].tokenLog && states[0].pinLog <= states[n].pinLog
  {
    hide Histories, ReleasesOf, Stepped;
    NoReleases();
    if n > 0 {
      GrowsTo(a, ops, states, responses, n - 1);
      assert responses[..n] == responses[..n - 1] + [responses[n - 1]];
      ReleasesExtend(responses[..n - 1], responses[n - 1]);
      StepGrows(a, ops[n - 1], states[n - 1], responses[n - 1], states[n]);
    } else {
      assert responses[..n] == [];
    }
  }

  lemma StepGrows(a: Authenticator, op: Op, s: Snapshot, response: Response, s': Snapshot)
    requires Stepped(a, op, s, response, s')
    ensures s'.released == s.released + ReleasesOf([response])
    ensures s.tokenLog <= s'.tokenLog && s.pinLog <= s'.pinLog
  {
    hide Authenticator.Effect, Authenticator.TokenEvents, Authenticator.PinEvents, Authenticator.TokenAfter,
         Database.Sound,
         Authenticator.Loads, Authenticator.Shown, Authenticator.Fine;
    assert [response][..0] == [];
    assert ReleasesOf([response][..0]) == [];
  }

  lemma {:induction false} PinHealthyAt(a: Authenticator, ops: seq<Op>, states: seq<Snapshot>, responses: seq<Response>,
                                        n: nat)
    requires IsRun(a, ops, states, responses) && n <= |ops| && states[0].pinHealthy && PinWritesSucceed(ops)
    ensures states[n].pinHealthy
  {
    hide Histories, Authenticator.Effect, Authenticator.TokenEvents, Authenticator.PinEvents, Authenticator.TokenAfter,
         Database.Sound, Authenticator.Loads, Authenticator.Shown, Authenticator.Fine;
    if n > 0 {
      PinHealthyAt(a, ops, states, responses, n - 1);
      assert Stepped(a, ops[n - 1], states[n - 1], responses[n - 1], states[n - 1 + 1]);
    }
  }

  lemma {:induction false} StoreHealthyAt(a: Authenticator, ops: seq<Op>, states: seq<Snapshot>,
                                          responses: seq<Response>, n: nat)
    requires IsRun(a, ops, states, responses) && n <= |ops| && states[0].storeHealthy && StoreFine(ops)
    requires KeyHidden(ops) || (Sound(states[0].rows, a.store.hmacKey) && states[0].uid.Some? && SessionsOwned(ops))
    ensures states[n].storeHealthy
    ensures !KeyHidden(ops) ==> Sound(states[n].rows, a.store.hmacKey) && states[n].uid.Some?
  {
    hide Histories, Stepped, Database.Sound, Authenticator.Fine;
    if n > 0 {
      StoreHealthyAt(a, ops, states, responses, n - 1);
      StaysHealthy(a, ops[n - 1], states[n - 1], responses[n - 1], states[n - 1 + 1], KeyHidden(ops));
    }
  }

  /** One operation without a store fault keeps the store healthy: no MAC is checked, or
      every row has an owner and a valid MAC. */
  lemma StaysHealthy(a: Authenticator, op: Op, s: Snapshot, response: Response, s': Snapshot, hidden: bool)
    requires Stepped(a, op, s, response, s') && s.storeHealthy
    requires HasEnv(op) ==> Authenticator.Fine(op.env) && (hidden ==> !op.env.keyReadable)
    requires !hidden ==> Sound(s.rows, a.store.hmacKey) && s.uid.Some? && (op.RestartAs? ==> op.uid.Some?)
    ensures s'.storeHealthy && (!hidden ==> Sound(s'.rows, a.store.hmacKey) && s'.uid.Some?)
  {
    hide Authenticator.Effect, Authenticator.TokenEvents, Authenticator.PinEvents, Authenticator.TokenAfter,
         Database.Sound,
         Authenticator.Shown, MacAccepted, VisibleIds;
    if HasEnv(op) {
      var uid := if op.RestartAs? then op.uid else s.uid;
      if !hidden {
        SoundLoads(s.rows, uid, a.store.hmacKey, op.env.keyReadable);
      }
      assert a.Loads(s.rows, uid, op.env);
    } else {
      RowWritesSound(a, op, s, response, s');
    }
  }

  lemma RowWritesSound(a: Authenticator, op: Op, s: Snapshot, response: Response, s': Snapshot)
    requires Stepped(a, op, s, response, s') && !HasEnv(op)
    ensures Sound(s.rows, a.store.hmacKey) ==> Sound(s'.rows, a.store.hmacKey)
  {
    hide Database.Sound;
    SameIdentitySound(s.rows, s'.rows, a.store.hmacKey);
  }

  lemma {:induction false} BlockedAt(a: Authenticator, ops: seq<Op>, states: seq<Snapshot>, responses: seq<Response>, n: nat)
    requires IsRun(a, ops, states, responses) && n <= |ops| && Blocked(states[0].clientPin) && NoReset(ops)
    requires NoRestart(ops) || (states[0].pinHealthy && PinWritesSucceed(ops))
    ensures Blocked(states[n].clientPin)
  {
    hide Histories, Stepped, Blocked;
    if n > 0 {
      BlockedAt(a, ops, states, responses, n - 1);
      BlockedStep(a, ops, states, responses, n - 1);
    }
  }

  lemma BlockedStep(a: Authenticator, ops: seq<Op>, states: seq<Snapshot>, responses: seq<Response>, n: nat)
    requires IsRun(a, ops, states, responses) && n < |ops| && Blocked(states[n].clientPin) && NoReset(ops)
    requires NoRestart(ops) || (states[0].pinHealthy && PinWritesSucceed(ops))
    ensures Blocked(states[n + 1].clientPin) && (NeedsPin(ops[n]) ==> responses[n].Failed?)
  {
    hide Histories, Stepped;
    if !NoRestart(ops) {
      PinHealthyAt(a, ops, states, responses, n);
    }
    BlockedStays(a, ops[n], states[n], responses[n], states[n + 1]);
  }

  lemma BlockedStays(a: Authenticator, op: Op, s: Snapshot, response: Response, s': Snapshot)
    requires Stepped(a, op, s, response, s') && Histories(s) && Blocked(s.clientPin) && !IsReset(op)
    requires op.RestartAs? ==> s.pinHealthy && !op.env.pinFault
    ensures Blocked(s'.clientPin) && (NeedsPin(op) ==> response.Failed?)
  {
    hide Authenticator.Outcome, Authenticator.Loads, Authenticator.Shown, Agree, AllJustified, IssuesScoped,
         NeverGuessedLate,
         WrongSince, FaithfulReloads, CursorsOk, Increasing;
    if op.Command? {
      a.BlockedOutcome(op.request, op.env, s, response, s');
    }
  }

  /** A command whose token verifies leaves the acceptance in the history, and behind it an
      undisturbed issue at most 600 s old with that permission and party. */
  lemma VerifiedMeansIssued(a: Authenticator, request: Request, env: Env, s: Snapshot, response: Response, s': Snapshot)
    returns (j: nat)
    requires Stepped(a, Command(request, env), s, response, s') && Histories(s')
    requires Authenticator.VerifiedBy(s.token, Authenticator.CheckOf(request, env, s), env)
    ensures |s'.tokenLog| == |s.tokenLog| + 1 && s'.tokenLog[|s.tokenLog|].Accepted?
    ensures IssuedBefore(s'.tokenLog, |s.tokenLog|, j)
    ensures s'.tokenLog[|s.tokenLog|].at == env.now <= s'.tokenLog[j].token.issuedAt + TOKEN_LIFETIME
    ensures request.CredentialManagement? ==> s'.tokenLog[j].token.rpId.None?
  {
    hide Authenticator.Effect, Authenticator.Loads, Authenticator.Fine, Database.Sound, AllJustified, IssuesScoped,
         Agree,
         NeverGuessedLate, WrongSince, FaithfulReloads, CursorsOk, Increasing, Authenticator.Verifies,
         Canonical.ManagementAuthMessage;
    j := AcceptedScope(s'.tokenLog, |s.tokenLog|);
  }

  lemma NoReleases()
    ensures ReleasesOf([]) == []
  {
  }

  lemma ReleasesExtend(responses: seq<Response>, r: Response)
    ensures ReleasesOf(responses + [r]) == ReleasesOf(responses) + ReleasesOf([r])
  {
    assert (responses + [r])[..|responses|] == responses;
    assert [r][..0] == [];
    assert ReleasesOf([r][..0]) == [];
  }

  // -------------------------------------------------- a multi-assertion

  /** Calls number 0, 1, 2, ... happen in order, in the same session, at most 30 seconds
      after the first. */
  ghost predicate Prompt(envs: nat -> Env, clock: nat) {
    && clock <= envs(0).now
    && (forall i: nat :: envs(i).now <= envs(i).later <= envs(i + 1).now)
    && (forall i: nat :: envs(i).sessionFirst && envs(i).now <= envs(0).later + 30 * SECOND)
  }

  lemma {:induction false} PromptOrder(envs: nat -> Env, clock: nat, i: nat, j: nat)
    requires Prompt(envs, clock) && i <= j
    ensures envs(i).later <= envs(j).later
    ensures i < j ==> envs(i).later <= envs(j).now
    ensures clock <= envs(i).now
    ensures Elapsed(envs(j).now, envs(i).later) <= CURSOR_LIFETIME
    decreases j
  {
    if i < j {
      PromptOrder(envs, clock, i, j - 1);
      assert envs(j - 1).later <= envs(j - 1 + 1).now;
    } else if 0 < i {
      PromptOrder(envs, clock, 0, i - 1);
      assert envs(i - 1).later <= envs(i - 1 + 1).now;
    }
    if 0 < i {
      PromptOrder(envs, clock, 0, i - 1);
      assert envs(i - 1).later <= envs(i - 1 + 1).now;
    }
  }

  /** What call number i of the exchange answers: the assertion of the i-th matching
      credential, as it was when the request was matched, or a refusal. Names go only to a
      verified user, the count moves by one until it saturates, and only the first of
      several answers reports how many there are. */
  ghost predicate AnswersInOrder(a: Authenticator, response: Response, seen: seq<Credential>, indexes: seq<nat>, i: nat,
                                 verified: bool, hash: Bytes, env: Env, rows: Rows)
    requires i < |indexes|
  {
    && indexes[i] < |seen|
    && var c := seen[indexes[i]];
    if && a.daemon && env.tpmOk && (c.policy.Some? ==> c.policy.value.policyVersion == 1)
       && !env.storeFault && c.id in rows
    then
      && response.Asserted?
      && var x := response.assertion;
      && x.id == c.id && x.rpId == c.rpId && x.userHandle == c.userHandle
      && x.userVerified == verified && x.clientDataHash == hash
      && x.signCount == (if c.signCount < 0xffff_ffff then c.signCount + 1 else c.signCount)
      && x.userName == (if verified then c.userName else None)
      && x.userDisplayName == (if verified then c.userDisplayName else None)
      && x.total == if i == 0 && |indexes| > 1 then Some(|indexes|) else None
    else response == Failed(OperationDenied)
  }

  /** The credentials a request is for, and no others, in increasing order. */
  ghost predicate ForRequest(seen: seq<Credential>, get: GetAssertionRequest, indexes: seq<nat>) {
    && StrictlyIncreasing(indexes)
    && forall k: nat :: k in indexes <==>
         && k < |seen| && get.rpId == Some(seen[k].rpId)
         && if get.allowList.None? || get.allowList.value == [] then seen[k].discoverable
            else Descriptor(seen[k].id) in get.allowList.value
  }

  /** The live token authenticates this request. */
  predicate TokenFits(t: Option<Token>, get: GetAssertionRequest, env: Env) {
    && env.sessionToken && get.auth.protocol == Some(2) && get.auth.param.Some? && t.Some?
    && get.clientDataHash.Some? && get.auth.param.value.tag == Mac(t.value.value, get.clientDataHash.value)
    && get.auth.param.value.length in {16, 32}
    && GetAssertionPermission in t.value.permissions && (t.value.rpId.None? || t.value.rpId == get.rpId)
    && t.value.issuedAt <= env.now <= t.value.issuedAt + 600 * SECOND
  }

  /** The request is well-formed, authenticated or not, matches something and is approved. */
  ghost predicate Answerable(t: Option<Token>, get: GetAssertionRequest, indexes: seq<nat>, env: Env) {
    && get.rpId.Some? && get.clientDataHash.Some? && |get.clientDataHash.value| == 32
    && (TokenFits(t, get, env) || (env.sessionToken && get.auth == PinAuth(None, None)))
    && (get.allowList.Some? ==> Malformed !in get.allowList.value)
    && indexes != [] && env.sessionBefore && env.approved && env.sessionAfter
  }

  lemma DescriptorsExactly(list: Option<seq<Descriptor>>)
    ensures DescriptorsOk(list) <==> (list.Some? ==> Malformed !in list.value)
  {
    if list.Some? && Malformed !in list.value {
      forall i | 0 <= i < |list.value|
        ensures list.value[i].Descriptor?
      {
        assert list.value[i] in list.value;
      }
    }
  }

  lemma AnswerableExactly(t: Option<Token>, get: GetAssertionRequest, seen: seq<Credential>, env: Env)
    requires get.rpId.Some?
    ensures Authenticator.Reaches(Some(get), t, seen, env)
            <==> Answerable(t, get, MatchingIndexes(seen, get.rpId.value, get.allowList), env)
    ensures Authenticator.Reaches(Some(get), t, seen, env) ==>
              (Authenticator.VerifiedBy(t, Authenticator.GetCheck(Some(get)), env) <==> TokenFits(t, get, env))
  {
    hide MatchingIndexes;
    DescriptorsExactly(get.allowList);
    var check := Authenticator.GetCheck(Some(get));
    if check.Some? {
      assert Authenticator.PresentsNone(get.auth, env) <==> env.sessionToken && get.auth == PinAuth(None, None);
      assert Authenticator.Verifies(t, check.value, env) <==> TokenFits(t, get, env);
    }
  }

  /** The state of the exchange after `i` answered calls. */
  ghost predicate Underway(a: Authenticator, get: GetAssertionRequest, seen: seq<Credential>, indexes: seq<nat>, i: nat,
                           verified: bool, at: nat, keys: set<Bytes>)
    requires get.rpId.Some? && get.clientDataHash.Some?
    reads a, a.store
  {
    && 1 <= i <= |indexes| && |a.credentials| == |seen| && a.store.rows.Keys == keys
    && (forall j :: i <= j < |indexes| ==> indexes[j] < |seen| && a.credentials[indexes[j]] == seen[indexes[j]])
    && a.pending == if i == |indexes| then None
                    else Some(PendingAssertion(get.rpId.value, get.clientDataHash.value, indexes[i..], |indexes|, at,
                                               a.uid, verified))
  }

  /** getAssertion followed by getNextAssertion until it has nothing left. The calls walk
      through the matching credentials in index order, each exactly once, all with the
      same client data hash and verification flag; a failed call consumes its credential;
      the first one reports the number of matches if there are several; and the call after
      the last one finds no credentials. */
  method AssertAll(a: Authenticator, get: GetAssertionRequest, envs: nat -> Env)
    returns (responses: seq<Response>, ghost seen: seq<Credential>, ghost reached: bool, ghost indexes: seq<nat>)
    requires a.Valid() && a.pending == None && a.management == None && Prompt(envs, a.clock)
    modifies a, a.store
    ensures a.Valid() && a.pending == None
    ensures a.Seen(seen, Some(get), old(a.token), old(a.credentials), old(a.store.rows), old(a.uid), envs(0))
    ensures ForRequest(seen, get, indexes)
    ensures reached <==> Answerable(old(a.token), get, indexes, envs(0))
    ensures !reached ==> |responses| == 2 && responses[0].Failed? && responses[1] == Failed(NoCredentials)
    ensures reached ==>
              && |responses| == |indexes| + 1 && responses[|indexes|] == Failed(NoCredentials)
              && forall i :: 0 <= i < |indexes| ==>
                   AnswersInOrder(a, responses[i], seen, indexes, i, get.uv || TokenFits(old(a.token), get, envs(0)),
                                  get.clientDataHash.value, envs(i), old(a.store.rows))
  {
    hide AuthState.CountsOk, AuthState.Agree, AuthState.OwnersOk, AuthState.PinOk, AuthState.TokenOk,
         AuthState.CursorsOk, AuthState.PendingOk, AuthState.FaithfulReloads, CredentialStore.Valid,
         Authenticator.Valid,
         MatchingIndexes, ReleasedBy, Database.Sound, Authenticator.Loads, Authenticator.Shown, Authenticator.Verifies,
         Authenticator.CheckEvents, Authenticator.CheckedToken;
    hide AnswersInOrder, Authenticator.Seen, Authenticator.Reaches, Authenticator.VerifiedBy, Answerable, TokenFits,
         ForRequest;
    ghost var clock0 := a.clock;
    PromptOrder(envs, clock0, 0, 0);
    ghost var keys := old(a.store.rows).Keys;
    ghost var verified;
    var first;
    first, seen, reached, verified, indexes := FirstAnswer(a, get, envs(0));
    responses := [first];
    var i := 1;
    while a.pending.Some?
      invariant a.Valid() && |responses| == i && a.clock == envs(i - 1).later
      invariant !reached ==> a.pending == None && i == 1 && responses[0].Failed?
      invariant reached ==> get.rpId.Some? && get.clientDataHash.Some?
      invariant reached ==> Underway(a, get, seen, indexes, i, verified, envs(0).later, keys)
      invariant reached ==> forall k :: 0 <= k < i ==>
                  AnswersInOrder(a, responses[k], seen, indexes, k, verified, get.clientDataHash.value, envs(k),
                                 old(a.store.rows))
      decreases if a.pending.Some? then |a.pending.value.indexes| + 1 else 0
    {
      PromptOrder(envs, clock0, i - 1, i);
      PromptOrder(envs, clock0, 0, i);
      var response := NextAnswer(a, get, seen, indexes, i, verified, envs(0).later, keys, envs(i));
      responses := responses + [response];
      i := i + 1;
    }
    PromptOrder(envs, clock0, i - 1, i);
    var last := LastCall(a, envs, i, clock0);
    responses := responses + [last];
  }

  lemma MatchingIsInjective(seen: seq<Credential>, rpId: Bytes, allowList: Option<seq<Descriptor>>)
    ensures NoDuplicates(MatchingIndexes(seen, rpId, allowList))
    ensures forall j :: 0 <= j < |MatchingIndexes(seen, rpId, allowList)| ==>
              MatchingIndexes(seen, rpId, allowList)[j] < |seen|
  {
    MatchingIsExact(seen, rpId, allowList);
    hide MatchingIndexes;
    var s := MatchingIndexes(seen, rpId, allowList);
    IncreasingIsInjective(s);
    forall j | 0 <= j < |s|
      ensures s[j] < |seen|
    {
      assert s[j] in s;
    }
  }

  /** The first call of the exchange. */
  method FirstAnswer(a: Authenticator, get: GetAssertionRequest, env: Env)
    returns (response: Response, ghost seen: seq<Credential>, ghost reached: bool, ghost verified: bool,
             ghost indexes: seq<nat>)
    requires a.Valid() && a.pending == None && a.management == None && a.clock <= env.now <= env.later
    modifies a, a.store
    ensures a.Valid() && a.clock == env.later
    ensures a.Seen(seen, Some(get), old(a.token), old(a.credentials), old(a.store.rows), old(a.uid), env)
    ensures ForRequest(seen, get, indexes) && (reached <==> Answerable(old(a.token), get, indexes, env))
    ensures !reached ==> a.pending == None && response.Failed?
    ensures reached ==>
              && get.rpId.Some? && get.clientDataHash.Some? && indexes != [] && NoDuplicates(indexes)
              && verified == (get.uv || TokenFits(old(a.token), get, env))
              && Underway(a, get, seen, indexes, 1, verified, env.later, old(a.store.rows).Keys)
              && AnswersInOrder(a, response, seen, indexes, 0, verified, get.clientDataHash.value, env, old(a.store.rows))
  {
    hide Authenticator.Valid, CredentialStore.Valid, MatchingIndexes, ReleasedBy, Database.Sound, Authenticator.Loads,
         Authenticator.Shown, Authenticator.Verifies, Authenticator.CheckEvents, Authenticator.CheckedToken,
         Authenticator.Seen, TokenFits, Authenticator.PresentsNone, DescriptorsOk, ForRequest;
    ghost var t := a.token;
    var r;
    r, seen, reached, verified := a.HandleGetAssertion(Some(get), env);
    response := ToResponse(r);
    indexes := [];
    if get.rpId.Some? {
      indexes := MatchingIndexes(seen, get.rpId.value, get.allowList);
      MatchingIsInjective(seen, get.rpId.value, get.allowList);
      AnswerableExactly(t, get, seen, env);
    }
    MatchesRequest(seen, get);
  }

  lemma MatchesRequest(seen: seq<Credential>, get: GetAssertionRequest)
    ensures ForRequest(seen, get, if get.rpId.Some? then MatchingIndexes(seen, get.rpId.value, get.allowList) else [])
  {
    if get.rpId.Some? {
      MatchingIsExact(seen, get.rpId.value, get.allowList);
    }
  }

  /** One more call of the exchange. */
  method NextAnswer(a: Authenticator, get: GetAssertionRequest, ghost seen: seq<Credential>, ghost indexes: seq<nat>,
                    ghost i: nat, ghost verified: bool, ghost at: nat, ghost keys: set<Bytes>, env: Env)
    returns (response: Response)
    requires a.Valid() && get.rpId.Some? && get.clientDataHash.Some? && i < |indexes| && NoDuplicates(indexes)
    requires Underway(a, get, seen, indexes, i, verified, at, keys)
    requires a.clock <= env.now <= env.later && env.sessionFirst && Elapsed(env.now, at) <= CURSOR_LIFETIME
    modifies a, a.store
    ensures a.Valid() && a.clock == env.later
    ensures Underway(a, get, seen, indexes, i + 1, verified, at, keys)
    ensures forall rows: Rows :: rows.Keys == keys ==>
              AnswersInOrder(a, response, seen, indexes, i, verified, get.clientDataHash.value, env, rows)
  {
    hide AuthState.CountsOk, AuthState.Agree, AuthState.OwnersOk, AuthState.PinOk, AuthState.TokenOk,
         AuthState.CursorsOk, AuthState.PendingOk, AuthState.FaithfulReloads, CredentialStore.Valid,
         Authenticator.Valid,
         MatchingIndexes, ReleasedBy, Database.Sound, Authenticator.Loads, Authenticator.Shown, Authenticator.Verifies,
         Authenticator.CheckEvents, Authenticator.CheckedToken;
    assert indexes[i..][0] == indexes[i] && indexes[i..][1..] == indexes[i + 1..];
    var r := a.HandleGetNextAssertion(true, env);
    response := ToResponse(r);
  }

  lemma IncreasingIsInjective(s: seq<nat>)
    requires StrictlyIncreasing(s)
    ensures NoDuplicates(s)
  {
  }

  method LastCall(a: Authenticator, envs: nat -> Env, n: nat, ghost clock: nat) returns (response: Response)
    requires a.Valid() && a.pending == None && Prompt(envs, clock) && a.clock <= envs(n).now
    modifies a, a.store
    ensures a.Valid() && a.pending == None && response == Failed(NoCredentials)
  {
    PromptOrder(envs, clock, n, n);
    var r := a.HandleGetNextAssertion(true, envs(n));
    response := ToResponse(r);
  }

  // ------------------------------------------------------- enumeration

  /** A management request of a platform that authenticates messages with `sign`. */
  function Asking(sign: Bytes -> PinAuth, subCommand: int, params: Option<seq<Cbor.Entry>>): Option<ManagementRequest> {
    Some(ManagementRequest(Some(subCommand), params, sign(Canonical.ManagementAuthMessage(subCommand, params))))
  }

  /** The parameters of enumerateCredentialsBegin for a relying party hash. */
  function ForHash(rpHash: Bytes): Option<seq<Cbor.Entry>> {
    Some([Cbor.Entry(Cbor.Integer(1), Cbor.ByteString(rpHash))])
  }

  /** Whatever the platform signs passes: it holds the live token, or presents none. */
  ghost predicate Authorized(t: Option<Token>, sign: Bytes -> PinAuth, envs: nat -> Env) {
    forall message: Bytes, n: nat ::
      Authenticator.PassesCheck(t, Some(TokenCheck(sign(message), message, ManagementPermission, None)), envs(n))
  }

  lemma PassingKeepsToken(t: Option<Token>, check: Option<TokenCheck>, env: Env)
    requires Authenticator.PassesCheck(t, check, env)
    ensures Authenticator.CheckedToken(t, check, env) == t
  {
  }

  lemma HashOfRequest(rpHash: Bytes)
    ensures MapBytes([Cbor.Entry(Cbor.Integer(1), Cbor.ByteString(rpHash))], Cbor.Integer(1)) == Some(rpHash)
  {
  }

  /** The enumeration starts with call number `n`. */
  ghost predicate ReadyAt(a: Authenticator, envs: nat -> Env, sign: Bytes -> PinAuth, clock: nat, n: nat)
    reads a, a.store
  {
    a.Valid() && a.clientPin.Some? && Prompt(envs, clock) && a.clock <= envs(n).now && Authorized(a.token, sign, envs)
  }

  /** One enumeration request, the `n`-th call. */
  method Ask(a: Authenticator, subCommand: int, params: Option<seq<Cbor.Entry>>, envs: nat -> Env, sign: Bytes -> PinAuth,
             ghost clock: nat, n: nat)
    returns (r: Result<Response>)
    requires ReadyAt(a, envs, sign, clock, n) && 1 <= subCommand <= 5
    modifies a`management, a`pendingIntact, a`token, a`tokenLog, a`clock, a`storeHealthy, a`credentials, a.store`rows
    ensures ReadyAt(a, envs, sign, clock, n + 1) && a.credentials == old(a.credentials)
    ensures var m := if old(a.management).Some? && Authenticator.ManagementLive(old(a.management).value, a.uid, envs(n))
                     then old(a.management) else None;
            a.Enumeration(subCommand, params, a.credentials, a.uid, m, envs(n), r, a.management)
  {
    hide Authenticator.Valid, Authenticator.Enumeration, Authenticator.Deletion, Authenticator.UserUpdate,
         Authenticator.PassesCheck, Authenticator.CheckedToken, Canonical.ManagementAuthMessage, Database.Sound;
    PromptOrder(envs, clock, n, n + 1);
    var request := Asking(sign, subCommand, params);
    ghost var check := Authenticator.ManageCheck(request, a.clientPin, envs(n));
    PromptSession(envs, clock, n);
    assert Authenticator.PassesCheck(a.token, check, envs(n));
    PassingKeepsToken(a.token, check, envs(n));
    r := a.HandleManagement(request, envs(n));
  }

  lemma PromptSession(envs: nat -> Env, clock: nat, n: nat)
    requires Prompt(envs, clock)
    ensures envs(n).sessionFirst
  {
  }

  /** What has been shown of the relying parties: name, hash and, in the first answer, how
      many there are. */
  ghost predicate RpsShown(a: Authenticator, rps: seq<Response>, indexes: seq<nat>)
    reads a
  {
    && |rps| <= |indexes|
    && forall i :: 0 <= i < |rps| ==>
         && indexes[i] < |a.credentials|
         && rps[i] == RpEntry(a.credentials[indexes[i]].rpId, a.sha256(a.credentials[indexes[i]].rpId),
                              if i == 0 then Some(|indexes|) else None)
  }

  method NextRp(a: Authenticator, envs: nat -> Env, sign: Bytes -> PinAuth, ghost clock: nat, ghost start: nat,
                n: nat, rps: seq<Response>, ghost indexes: seq<nat>)
    returns (r: Result<Response>)
    requires ReadyAt(a, envs, sign, clock, n) && 1 <= |rps| && start <= n && RpsShown(a, rps, indexes)
    requires a.management == Some(ManagementState(indexes, |rps|, [], 0, a.uid, envs(start).later))
    modifies a`management, a`pendingIntact, a`token, a`tokenLog, a`clock, a`storeHealthy, a`credentials, a.store`rows
    ensures ReadyAt(a, envs, sign, clock, n + 1) && a.credentials == old(a.credentials)
    ensures r.Err? ==> |rps| == |indexes| && RpsShown(a, rps, indexes)
    ensures r.Ok? ==> && RpsShown(a, rps + [r.value], indexes)
                      && a.management == Some(ManagementState(indexes, |rps| + 1, [], 0, a.uid, envs(start).later))
  {
    hide Authenticator.Valid, RpIndexes, HashIndexes, DiscoverableIndexes, MapBytes;
    PromptOrder(envs, clock, start, n);
    r := Ask(a, 3, None, envs, sign, clock, n);
  }

  /** enumerateRPsBegin and then enumerateRPsGetNextRP until the cursor is exhausted. */
  method EnumerateRps(a: Authenticator, envs: nat -> Env, sign: Bytes -> PinAuth, ghost clock: nat, start: nat)
    returns (rps: seq<Response>, n: nat)
    requires ReadyAt(a, envs, sign, clock, start)
    modifies a`management, a`pendingIntact, a`token, a`tokenLog, a`clock, a`storeHealthy, a`credentials, a.store`rows
    ensures ReadyAt(a, envs, sign, clock, n) && a.credentials == old(a.credentials)
    ensures |rps| == |RpIndexes(a.credentials)| && RpsShown(a, rps, RpIndexes(a.credentials))
  {
    hide ReadyAt, RpIndexes, HashIndexes, DiscoverableIndexes, MapBytes;
    rps, n := [], start + 1;
    ghost var indexes := RpIndexes(a.credentials);
    var r := Ask(a, 2, None, envs, sign, clock, start);
    if r.Err? {
      return;
    }
    rps := [r.value];
    while true
      invariant ReadyAt(a, envs, sign, clock, n) && a.credentials == old(a.credentials) && start <= n
      invariant 1 <= |rps| && RpsShown(a, rps, indexes)
      invariant a.management == Some(ManagementState(indexes, |rps|, [], 0, a.uid, envs(start).later))
      decreases |indexes| - |rps|
    {
      r := NextRp(a, envs, sign, clock, start, n, rps, indexes);
      n := n + 1;
      if r.Err? {
        return;
      }
      rps := rps + [r.value];
    }
  }

  /** What has been shown of the credentials of one relying party. */
  ghost predicate CredentialsShown(creds: seq<Credential>, found: seq<Response>, indexes: seq<nat>) {
    && |found| <= |indexes|
    && forall i :: 0 <= i < |found| ==>
         && indexes[i] < |creds|
         && found[i] == CredentialEntry(creds[indexes[i]], if i == 0 then Some(|indexes|) else None)
  }

  method NextCredential(a: Authenticator, envs: nat -> Env, sign: Bytes -> PinAuth, ghost clock: nat,
                        ghost start: nat, n: nat, found: seq<Response>, ghost indexes: seq<nat>)
    returns (r: Result<Response>)
    requires ReadyAt(a, envs, sign, clock, n) && 1 <= |found| && start <= n
    requires CredentialsShown(a.credentials, found, indexes)
    requires a.management == Some(ManagementState([], 0, indexes, |found|, a.uid, envs(start).later))
    modifies a`management, a`pendingIntact, a`token, a`tokenLog, a`clock, a`storeHealthy, a`credentials, a.store`rows
    ensures ReadyAt(a, envs, sign, clock, n + 1) && a.credentials == old(a.credentials)
    ensures r.Err? ==> |found| == |indexes|
    ensures r.Ok? ==> && CredentialsShown(a.credentials, found + [r.value], indexes)
                      && a.management == Some(ManagementState([], 0, indexes, |found| + 1, a.uid, envs(start).later))
  {
    hide Authenticator.Valid, RpIndexes, HashIndexes, DiscoverableIndexes, MapBytes;
    PromptOrder(envs, clock, start, n);
    r := Ask(a, 5, None, envs, sign, clock, n);
  }

  /** enumerateCredentialsBegin for one relying party and then
      enumerateCredentialsGetNextCredential until the cursor is exhausted. */
  method EnumerateCredentials(a: Authenticator, rpHash: Bytes, envs: nat -> Env, sign: Bytes -> PinAuth,
                              ghost clock: nat, start: nat)
    returns (found: seq<Response>, n: nat)
    requires ReadyAt(a, envs, sign, clock, start) && |rpHash| == 32
    modifies a`management, a`pendingIntact, a`token, a`tokenLog, a`clock, a`storeHealthy, a`credentials, a.store`rows
    ensures ReadyAt(a, envs, sign, clock, n) && a.credentials == old(a.credentials)
    ensures var indexes := HashIndexes(a.credentials, a.sha256, rpHash);
            |found| == |indexes| && CredentialsShown(a.credentials, found, indexes)
  {
    hide ReadyAt, RpIndexes, HashIndexes, DiscoverableIndexes, MapBytes;
    found, n := [], start + 1;
    ghost var indexes := HashIndexes(a.credentials, a.sha256, rpHash);
    HashOfRequest(rpHash);
    var r := Ask(a, 4, ForHash(rpHash), envs, sign, clock, start);
    if r.Err? {
      return;
    }
    found := [r.value];
    while true
      invariant ReadyAt(a, envs, sign, clock, n) && a.credentials == old(a.credentials) && start <= n
      invariant 1 <= |found| && CredentialsShown(a.credentials, found, indexes)
      invariant a.management == Some(ManagementState([], 0, indexes, |found|, a.uid, envs(start).later))
      decreases |indexes| - |found|
    {
      r := NextCredential(a, envs, sign, clock, start, n, found, indexes);
      n := n + 1;
      if r.Err? {
        return;
      }
      found := found + [r.value];
    }
  }

  /** The credentials that entries show. */
  ghost predicate Shows(entries: seq<Response>, creds: seq<Credential>, indexes: seq<nat>) {
    && |entries| == |indexes|
    && forall i :: 0 <= i < |entries| ==>
         indexes[i] < |creds| && entries[i].CredentialEntry? && entries[i].credential == creds[indexes[i]]
  }

  lemma ShowsConcat(x: seq<Response>, y: seq<Response>, creds: seq<Credential>, s: seq<nat>, t: seq<nat>)
    requires Shows(x, creds, s) && Shows(y, creds, t)
    ensures Shows(x + y, creds, s + t)
  {
  }

  /** A complete enumeration: all relying parties, then the credentials of each, with the
      live token or without one. */
  method EnumerateAll(a: Authenticator, envs: nat -> Env, sign: Bytes -> PinAuth)
    returns (metadata: Result<Response>, rps: seq<Response>, entries: seq<Response>, ghost parties: seq<nat>,
             ghost shown: seq<nat>)
    requires ReadyAt(a, envs, sign, a.clock, 0)
    requires forall i :: 0 <= i < |a.credentials| ==> |a.sha256(a.credentials[i].rpId)| == 32
    modifies a`management, a`pendingIntact, a`token, a`tokenLog, a`clock, a`storeHealthy, a`credentials, a.store`rows
    ensures a.Valid() && a.credentials == old(a.credentials)
    ensures |rps| == |parties| && RpsShown(a, rps, parties) && OnePerParty(a.credentials, parties)
    ensures Shows(entries, a.credentials, shown)
    ensures NoDuplicates(shown) <==> CollisionFree(a.credentials, a.sha256)
    ensures CollisionFree(a.credentials, a.sha256) ==>
              && (forall k: nat :: k in shown <==> k < |a.credentials| && a.credentials[k].discoverable)
              && metadata == Ok(CredsMetadata(|entries|, if |entries| <= 128 then 128 - |entries| else 0))
  {
    hide AuthState.CountsOk, AuthState.Agree, AuthState.OwnersOk, AuthState.PinOk, AuthState.TokenOk,
         AuthState.CursorsOk, AuthState.PendingOk, AuthState.FaithfulReloads, CredentialStore.Valid,
         Authenticator.Valid,
         RpIndexes, HashIndexes, DiscoverableIndexes, CollisionFree, NoDuplicates, IsDiscoverable;
    ghost var clock := a.clock;
    var n;
    metadata := Ask(a, 1, None, envs, sign, clock, 0);
    rps, n := EnumerateRps(a, envs, sign, clock, 1);
    ShownExactly(a.credentials, a.sha256);
    PartiesExactly(a.credentials);
    parties := RpIndexes(a.credentials);
    shown := Enumerated(a.credentials, a.sha256, parties);
    entries := EnumerateParties(a, envs, sign, clock, n, rps, parties);
  }

  /** Every relying party with a discoverable credential exactly once, in the order of its
      first one. */
  ghost predicate OnePerParty(creds: seq<Credential>, parties: seq<nat>) {
    && StrictlyIncreasing(parties)
    && forall k: nat :: k in parties <==>
         && k < |creds| && creds[k].discoverable
         && forall j :: 0 <= j < k && creds[j].discoverable ==> creds[j].rpId != creds[k].rpId
  }

  lemma PartiesExactly(creds: seq<Credential>)
    ensures OnePerParty(creds, RpIndexes(creds))
  {
    RpIndexesExact(creds);
    hide RpIndexes;
    forall k: nat
      ensures k in RpIndexes(creds) <==>
                && k < |creds| && creds[k].discoverable
                && forall j :: 0 <= j < k && creds[j].discoverable ==> creds[j].rpId != creds[k].rpId
    {
      assert k in RpIndexes(creds) <==> FirstOfRp(creds, k);
    }
  }

  /** The credentials of the relying parties `rps`, one party after the other. */
  method EnumerateParties(a: Authenticator, envs: nat -> Env, sign: Bytes -> PinAuth, ghost clock: nat, start: nat,
                          rps: seq<Response>, ghost parties: seq<nat>)
    returns (entries: seq<Response>)
    requires ReadyAt(a, envs, sign, clock, start) && RpsShown(a, rps, parties) && |rps| == |parties|
    requires forall i :: 0 <= i < |parties| ==> parties[i] < |a.credentials|
    requires forall i :: 0 <= i < |a.credentials| ==> |a.sha256(a.credentials[i].rpId)| == 32
    modifies a`management, a`pendingIntact, a`token, a`tokenLog, a`clock, a`storeHealthy, a`credentials, a.store`rows
    ensures a.Valid() && a.credentials == old(a.credentials)
    ensures Shows(entries, a.credentials, Enumerated(a.credentials, a.sha256, parties))
  {
    hide ReadyAt, RpIndexes, HashIndexes, DiscoverableIndexes, Shows, CredentialsShown;
    ghost var creds := a.credentials;
    var n := start;
    entries := [];
    NothingShown(creds);
    for i := 0 to |rps|
      invariant ReadyAt(a, envs, sign, clock, n) && a.credentials == creds
      invariant Shows(entries, creds, Enumerated(creds, a.sha256, parties[..i]))
    {
      var found;
      found, n := EnumerateCredentials(a, rps[i].rpIdHash, envs, sign, clock, n);
      ghost var group := HashIndexes(creds, a.sha256, a.sha256(creds[parties[i]].rpId));
      assert parties[..i + 1][..i] == parties[..i];
      GroupShown(found, creds, group);
      ShowsConcat(entries, found, creds, Enumerated(creds, a.sha256, parties[..i]), group);
      entries := entries + found;
    }
    assert parties[..|rps|] == parties;
    ReadyIsValid(a, envs, sign, clock, n);
  }

  lemma ReadyIsValid(a: Authenticator, envs: nat -> Env, sign: Bytes -> PinAuth, clock: nat, n: nat)
    requires ReadyAt(a, envs, sign, clock, n)
    ensures a.Valid()
  {
  }

  lemma NothingShown(creds: seq<Credential>)
    ensures Shows([], creds, [])
  {
  }

  lemma GroupShown(found: seq<Response>, creds: seq<Credential>, indexes: seq<nat>)
    requires |found| == |indexes| && CredentialsShown(creds, found, indexes)
    ensures Shows(found, creds, indexes)
  {
  }

  lemma ShownExactly(creds: seq<Credential>, hash: Bytes -> Bytes)
    ensures forall i :: 0 <= i < |RpIndexes(creds)| ==> RpIndexes(creds)[i] < |creds|
    ensures var shown := Enumerated(creds, hash, RpIndexes(creds));
            && (NoDuplicates(shown) <==> CollisionFree(creds, hash))
            && (CollisionFree(creds, hash) ==>
                  && (forall k: nat :: k in shown <==> k < |creds| && creds[k].discoverable)
                  && |shown| == |DiscoverableIndexes(creds)|)
  {
    hide RpIndexes, HashIndexes, DiscoverableIndexes, CollisionFree, NoDuplicates;
    EnumeratedOnceExactly(creds, hash);
    if CollisionFree(creds, hash) {
      EnumerationIsExact(creds, hash);
      TotalIsLength(creds, hash, RpIndexes(creds));
    }
  }
}
