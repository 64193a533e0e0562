/**
 The life of one credential in the TPM: registration, PCR updates, recovery
 passphrase changes and assertions, in any order and under any interference.
 */
module TpmLifecycle {
  import opened Bytes
  import opened TpmModel
  import opened TpmPolicy

  /** What the store keeps about a credential's keys. */
  datatype StoredKeys = StoredKeys(key: TpmCredential, policy: PcrPolicyBinding, recovery: TpmCredential)

  /** The key's fixed policy is the stored digest, it names the recovery authority, and
      the authority has approved the PCR values read at command `approvedAt`. */
  ghost predicate Consistent(s: StoredKeys, env: Environment, selection: seq<nat>, approvedAt: nat)
    requires ValidSelection(selection)
  {
    && Loadable(s.key) && Usable(s.recovery)
    && s.policy.policyRef.Some?
    && s.policy.digest == FinalPolicy(NameOf(s.recovery.public), s.policy.policyRef.value)
    && s.key.public.authPolicy == Some(s.policy.digest)
    && Approves(s.policy, s.recovery, PcrPolicy(selection, ReadDigest(env, selection, approvedAt)))
  }

  /** Registration: recovery authority, approved policy, credential key. */
  method Register(tpm: Tpm, passphraseHash: Bytes, policyRef: Bytes)
    returns (r: Option<StoredKeys>, ghost approvedAt: nat)
    requires tpm.Valid()
    modifies tpm.context
    ensures tpm.Valid()
    ensures r.Some? ==> Consistent(r.value, tpm.context.env, tpm.selection, approvedAt)
                        && r.value.policy.policyRef == Some(policyRef)
                        && r.value.recovery.authValue == Some(passphraseHash)
    ensures r.Some? <==> NoFaults(tpm.context.env, old(tpm.context.clock), old(tpm.context.clock) + 29)
                         && |old(tpm.context.objects)| + 2 <= tpm.context.objectSlots
                         && |old(tpm.context.sessions)| + 1 <= tpm.context.sessionSlots
    ensures r.Some? ==> old(tpm.context.clock) <= approvedAt < tpm.context.clock
    ensures r.Some? ==>
              tpm.context.objects == old(tpm.context.objects) && tpm.context.sessions == old(tpm.context.sessions)
  {
    hide Bank, Counter, Selected, ReadDigest;
    approvedAt := 0;
    var recovery := tpm.CreateCredentialKey(None, Some(passphraseHash));
    if recovery == None {
      return None, approvedAt;
    }
    approvedAt := tpm.context.clock;
    var secureBoot := tpm.CreateSecureBootPolicy();
    if secureBoot == None {
      return None, approvedAt;
    }
    var policy := tpm.CreateAuthorizedPolicy(secureBoot.value, recovery.value, policyRef);
    if policy == None {
      return None, approvedAt;
    }
    var key := tpm.CreateCredentialKey(policy, None);
    if key == None {
      return None, approvedAt;
    }
    r := Some(StoredKeys(key.value, policy.value, recovery.value));
  }

  datatype LifeOp = UpdatePcrs | ChangePassphrase(newHash: Bytes) | Assert(message: Bytes)

  datatype LifeResult = Updated(ok: bool) | Changed(ok: bool) | Signed(signature: Option<Signature>)

  /** The moment an operation starts: the next command number, the approval in force, the
      live handles and the flushes lost so far. */
  datatype Moment = Moment(t: nat, approvedAt: nat, objects: nat, sessions: nat, lost: nat)

  ghost function Now(tpm: Tpm, approvedAt: nat): Moment
    reads tpm.context
  {
    var c := tpm.context;
    Moment(c.clock, approvedAt, |c.objects|, |c.sessions|, c.lostFlushes)
  }

  /** The exact condition for an assertion: no fault, room for three objects and a
      session, at most eight selected PCRs, and the approved PCR values at the read, at
      PolicyPCR and, without any extension since, at the signature. */
  ghost predicate PassesWhen(tpm: Tpm, m: Moment)
    requires ValidSelection(tpm.selection)
  {
    var env, selection := tpm.context.env, tpm.selection;
    && NoFaults(env, m.t, m.t + 12)
    && m.objects + 3 <= tpm.context.objectSlots && m.sessions + 1 <= tpm.context.sessionSlots
    && |selection| <= MAX_READ
    && Selected(env, selection, m.t + 2) == Selected(env, selection, m.approvedAt)
    && Selected(env, selection, m.t + 4) == Selected(env, selection, m.approvedAt)
    && Quiet(env, m.t + 4, m.t + 11)
  }

  /** With a consistent package, policy authorisation passes exactly when the selected
      PCRs are the approved ones. */
  lemma PassesExactly(tpm: Tpm, s: StoredKeys, m: Moment)
    requires ValidSelection(tpm.selection)
    requires Consistent(s, tpm.context.env, tpm.selection, m.approvedAt)
    ensures tpm.Passes(m.t, s.key, Some(s.policy), Some(s.recovery), m.objects, m.sessions) <==> PassesWhen(tpm, m)
  {
    hide Bank, Counter, Selected;
    var env, selection := tpm.context.env, tpm.selection;
    CounterGrows(env, m.t + 4, m.t + 11);
    var values := Selected(env, selection, m.t + 4);
    assert NoFaults(env, m.t, m.t + 12) <==> NoFaults(env, m.t, m.t + 2) && NoFaults(env, m.t + 2, m.t + 12);
    if |selection| > MAX_READ {
      assert ReadDigest(env, selection, m.t + 2) != PcrComposite(values);
    }
  }

  /** Without interference during the call the condition is about the PCRs now. */
  lemma PassesWhenQuiet(tpm: Tpm, m: Moment)
    requires ValidSelection(tpm.selection)
    requires Quiet(tpm.context.env, m.t, m.t + 11) && NoFaults(tpm.context.env, m.t, m.t + 12)
    requires m.objects + 3 <= tpm.context.objectSlots && m.sessions + 1 <= tpm.context.sessionSlots
    ensures PassesWhen(tpm, m)
            <==> |tpm.selection| <= MAX_READ
                 && Selected(tpm.context.env, tpm.selection, m.t) == Selected(tpm.context.env, tpm.selection, m.approvedAt)
  {
    QuietKeepsBank(tpm.context.env, m.t, m.t + 2);
    QuietKeepsBank(tpm.context.env, m.t, m.t + 4);
  }

  /** In terms of what the world does: an assertion passes exactly when nothing fails, the
      slots suffice, at most eight PCRs are selected, none of them was extended since the
      approval, and from PolicyPCR to the signature no PCR at all is extended. */
  lemma ExtensionsBlockExactly(tpm: Tpm, m: Moment)
    requires ValidSelection(tpm.selection) && m.approvedAt <= m.t
    ensures PassesWhen(tpm, m)
            <==> && NoFaults(tpm.context.env, m.t, m.t + 12)
                 && m.objects + 3 <= tpm.context.objectSlots && m.sessions + 1 <= tpm.context.sessionSlots
                 && |tpm.selection| <= MAX_READ
                 && Untouched(tpm.context.env, tpm.selection, m.approvedAt, m.t + 4)
                 && Quiet(tpm.context.env, m.t + 4, m.t + 11)
  {
    hide Bank, Selected;
    SameValuesExactly(tpm.context.env, tpm.selection, m.approvedAt, m.t + 2);
    SameValuesExactly(tpm.context.env, tpm.selection, m.approvedAt, m.t + 4);
  }

  /** A PCR update succeeds. */
  ghost predicate UpdatesWhen(tpm: Tpm, m: Moment) {
    && NoFaults(tpm.context.env, m.t, m.t + 17)
    && m.objects + 2 <= tpm.context.objectSlots && m.sessions + 1 <= tpm.context.sessionSlots
  }

  /** A passphrase change succeeds. */
  ghost predicate RekeysWhen(tpm: Tpm, m: Moment) {
    NoFaults(tpm.context.env, m.t, m.t + 5) && m.objects + 2 <= tpm.context.objectSlots
  }

  /** What one operation answers, and the moment it leaves. Only a successful PCR update
      moves the approval, to its own first command. */
  ghost predicate Lived(tpm: Tpm, keyId: nat, op: LifeOp, result: LifeResult, m: Moment, m': Moment)
    requires ValidSelection(tpm.selection)
  {
    && m.t <= m'.t
    && match op
       case UpdatePcrs =>
         && result == Updated(UpdatesWhen(tpm, m)) && m.t < m'.t
         && m'.approvedAt == (if UpdatesWhen(tpm, m) then m.t else m.approvedAt)
         && (result.ok ==> SameHandles(m, m'))
       case ChangePassphrase(_) =>
         && result == Changed(RekeysWhen(tpm, m)) && m.t < m'.t && m'.approvedAt == m.approvedAt
         && (result.ok ==> SameHandles(m, m'))
       case Assert(message) =>
         && result == Signed(if |message| == 32 && PassesWhen(tpm, m)
                             then Some(Signature(keyId, MessageDigest(message))) else None)
         && (|message| == 32 ==> m.t < m'.t) && m'.approvedAt == m.approvedAt
         && m.lost <= m'.lost && m'.objects + m'.sessions == m.objects + m.sessions + (m'.lost - m.lost)
         && (m'.lost == m.lost ==> SameHandles(m, m'))
  }

  predicate SameHandles(m: Moment, m': Moment) {
    m'.objects == m.objects && m'.sessions == m.sessions && m'.lost == m.lost
  }

  /** Any history of a credential. Whatever fails, is extended or is changed in between,
      the key and its policy digest never change, the stored package stays consistent
      with the last successful approval, and every operation answers as `Lived` says: in
      particular an assertion yields a signature exactly when the selected PCRs equal the
      approval in force. */
  method Live(tpm: Tpm, stored: StoredKeys, ghost approvedAt: nat, ops: seq<LifeOp>)
    returns (s: StoredKeys, results: seq<LifeResult>, ghost trace: seq<Moment>)
    requires tpm.Valid() && Consistent(stored, tpm.context.env, tpm.selection, approvedAt)
    requires approvedAt <= tpm.context.clock
    modifies tpm.context
    ensures tpm.Valid() && |results| == |ops| && |trace| == |ops| + 1
    ensures trace[0] == old(Now(tpm, approvedAt)) && trace[|ops|] == Now(tpm, trace[|ops|].approvedAt)
    ensures Consistent(s, tpm.context.env, tpm.selection, trace[|ops|].approvedAt)
    ensures s.key == stored.key && s.policy.digest == stored.policy.digest
    ensures s.recovery.public == stored.recovery.public && s.policy.policyRef == stored.policy.policyRef
    ensures forall i :: 0 <= i < |ops| ==>
              Lived(tpm, stored.key.public.keyId, ops[i], results[i], trace[i], trace[i + 1])
    ensures forall i :: 0 <= i < |trace| ==> trace[i].approvedAt <= trace[i].t
  {
    hide Bank, Counter, Selected, ReadDigest, Consistent, Lived;
    s, results, trace := stored, [], [Now(tpm, approvedAt)];
    for i := 0 to |ops|
      invariant tpm.Valid() && |results| == i && |trace| == i + 1
      invariant trace[0] == old(Now(tpm, approvedAt)) && trace[i] == Now(tpm, trace[i].approvedAt)
      invariant Consistent(s, tpm.context.env, tpm.selection, trace[i].approvedAt)
      invariant s.key == stored.key && s.policy.digest == stored.policy.digest
      invariant s.recovery.public == stored.recovery.public && s.policy.policyRef == stored.policy.policyRef
      invariant forall k :: 0 <= k < i ==>
                  Lived(tpm, stored.key.public.keyId, ops[k], results[k], trace[k], trace[k + 1])
      invariant forall k :: 0 <= k <= i ==> trace[k].approvedAt <= trace[k].t
    {
      var result;
      ghost var next;
      s, result, next := LiveStep(tpm, s, ops[i], trace[i]);
      results, trace := results + [result], trace + [next];
    }
  }

  method LiveStep(tpm: Tpm, s: StoredKeys, op: LifeOp, ghost m: Moment)
    returns (s': StoredKeys, result: LifeResult, ghost m': Moment)
    requires tpm.Valid() && m == Now(tpm, m.approvedAt) && m.approvedAt <= m.t
    requires Consistent(s, tpm.context.env, tpm.selection, m.approvedAt)
    modifies tpm.context
    ensures tpm.Valid() && m' == Now(tpm, m'.approvedAt) && m'.approvedAt <= m'.t
    ensures Consistent(s', tpm.context.env, tpm.selection, m'.approvedAt)
    ensures s'.key == s.key && s'.policy.digest == s.policy.digest
    ensures s'.recovery.public == s.recovery.public && s'.policy.policyRef == s.policy.policyRef
    ensures Lived(tpm, s.key.public.keyId, op, result, m, m')
  {
    hide Bank, Counter, Selected, ReadDigest, Consistent, PassesWhen, UpdatesWhen, RekeysWhen;
    s' := s;
    ghost var approvedAt := m.approvedAt;
    match op {
      case UpdatePcrs =>
        var ok;
        s', ok := UpdateStep(tpm, s, m);
        result, approvedAt := Updated(ok), if ok then m.t else m.approvedAt;
      case ChangePassphrase(newHash) =>
        var ok;
        s', ok := PassphraseStep(tpm, s, m, newHash);
        result := Changed(ok);
      case Assert(message) =>
        var signature := AssertStep(tpm, s, m, message);
        result := Signed(signature);
    }
    m' := Now(tpm, approvedAt);
  }

  method UpdateStep(tpm: Tpm, s: StoredKeys, ghost m: Moment) returns (s': StoredKeys, ok: bool)
    requires tpm.Valid() && m == Now(tpm, m.approvedAt)
    requires Consistent(s, tpm.context.env, tpm.selection, m.approvedAt)
    modifies tpm.context
    ensures tpm.Valid() && m.t < tpm.context.clock
    ensures ok <==> UpdatesWhen(tpm, m)
    ensures Consistent(s', tpm.context.env, tpm.selection, if ok then m.t else m.approvedAt)
    ensures s'.key == s.key && s'.recovery == s.recovery
    ensures s'.policy.digest == s.policy.digest && s'.policy.policyRef == s.policy.policyRef
    ensures !ok ==> s' == s
    ensures ok ==> SameHandles(m, Now(tpm, m.approvedAt))
  {
    hide Bank, Counter, Selected, ReadDigest;
    s' := s;
    var policy := tpm.UpdateAuthorizedPolicy(s.recovery, s.policy.authorityName.value, s.policy.policyRef.value);
    ok := policy.Some?;
    if ok {
      s' := s.(policy := policy.value);
    }
  }

  method PassphraseStep(tpm: Tpm, s: StoredKeys, ghost m: Moment, newHash: Bytes) returns (s': StoredKeys, ok: bool)
    requires tpm.Valid() && m == Now(tpm, m.approvedAt)
    requires Consistent(s, tpm.context.env, tpm.selection, m.approvedAt)
    modifies tpm.context
    ensures tpm.Valid() && m.t < tpm.context.clock
    ensures ok <==> RekeysWhen(tpm, m)
    ensures Consistent(s', tpm.context.env, tpm.selection, m.approvedAt)
    ensures s'.key == s.key && s'.policy == s.policy && s'.recovery.public == s.recovery.public
    ensures if ok then s'.recovery.authValue == Some(newHash) else s' == s
    ensures ok ==> SameHandles(m, Now(tpm, m.approvedAt))
  {
    hide Bank, Counter, Selected, ReadDigest;
    s' := s;
    var recovery := tpm.ChangeKeyAuth(s.recovery, newHash);
    ok := recovery.Some?;
    if ok {
      s' := s.(recovery := recovery.value);
    }
  }

  method AssertStep(tpm: Tpm, s: StoredKeys, ghost m: Moment, message: Bytes) returns (r: Option<Signature>)
    requires tpm.Valid() && m == Now(tpm, m.approvedAt)
    requires Consistent(s, tpm.context.env, tpm.selection, m.approvedAt)
    modifies tpm.context
    ensures tpm.Valid() && m.t <= tpm.context.clock && (|message| == 32 ==> m.t < tpm.context.clock)
    ensures r == if |message| == 32 && PassesWhen(tpm, m)
                 then Some(Signature(s.key.public.keyId, MessageDigest(message))) else None
    ensures var m' := Now(tpm, m.approvedAt);
            && m.lost <= m'.lost && m'.objects + m'.sessions == m.objects + m.sessions + (m'.lost - m.lost)
            && (m'.lost == m.lost ==> SameHandles(m, m'))
  {
    hide Bank, Counter, Selected, ReadDigest, PassesWhen;
    PassesExactly(tpm, s, m);
    hide TpmPolicy.Tpm.Passes;
    r := tpm.SignDigestWithPolicy(s.key, Some(s.policy), Some(s.recovery), message);
  }

  lemma AccountedTransitive(o: set<nat>, s: set<nat>, l: nat, o': set<nat>, s': set<nat>, l': nat,
                            o'': set<nat>, s'': set<nat>, l'': nat)
    requires Accounted(o, s, l, o', s', l') && Accounted(o', s', l', o'', s'', l'')
    ensures Accounted(o, s, l, o'', s'', l'')
  {
  }

  /** Any number of assertions, passing or failing at any command, leaves exactly the
      handles that were live before, plus one for every flush that failed. Each signs
      exactly when its policy passes at the moment it starts, so while no flush fails all
      of them find the same free slots. */
  method AssertMany(tpm: Tpm, requests: seq<(StoredKeys, Bytes)>)
    returns (results: seq<Option<Signature>>, ghost trace: seq<Moment>)
    requires tpm.Valid()
    modifies tpm.context
    ensures tpm.Valid() && |results| == |requests| && |trace| == |requests| + 1
    ensures trace[0] == old(Now(tpm, 0)) && trace[|requests|] == Now(tpm, 0)
    ensures Accounted(old(tpm.context.objects), old(tpm.context.sessions), old(tpm.context.lostFlushes),
                      tpm.context.objects, tpm.context.sessions, tpm.context.lostFlushes)
    ensures forall i :: 0 <= i < |requests| ==> SignsExactly(tpm, requests[i], trace[i], results[i])
    ensures forall i :: 0 <= i < |requests| ==>
              && trace[i].lost <= trace[i + 1].lost
              && (trace[i + 1].lost == trace[i].lost ==> SameHandles(trace[i], trace[i + 1]))
  {
    hide Bank, Counter, Selected, ReadDigest, TpmPolicy.Tpm.Passes, Accounted, SignsExactly;
    AccountedNow(tpm.context.objects, tpm.context.sessions, tpm.context.lostFlushes);
    results, trace := [], [Now(tpm, 0)];
    for i := 0 to |requests|
      invariant tpm.Valid() && |results| == i && |trace| == i + 1
      invariant trace[0] == old(Now(tpm, 0)) && trace[i] == Now(tpm, 0)
      invariant Accounted(old(tpm.context.objects), old(tpm.context.sessions), old(tpm.context.lostFlushes),
                          tpm.context.objects, tpm.context.sessions, tpm.context.lostFlushes)
      invariant forall k :: 0 <= k < i ==> SignsExactly(tpm, requests[k], trace[k], results[k])
      invariant forall k :: 0 <= k < i ==>
                  trace[k].lost <= trace[k + 1].lost
                  && (trace[k + 1].lost == trace[k].lost ==> SameHandles(trace[k], trace[k + 1]))
    {
      ghost var o, s, l := tpm.context.objects, tpm.context.sessions, tpm.context.lostFlushes;
      var r := AssertOne(tpm, requests[i]);
      AccountedTransitive(old(tpm.context.objects), old(tpm.context.sessions), old(tpm.context.lostFlushes),
                          o, s, l, tpm.context.objects, tpm.context.sessions, tpm.context.lostFlushes);
      results, trace := results + [r], trace + [Now(tpm, 0)];
    }
  }

  /** A signature comes out exactly when the policy passes from this moment on. */
  ghost predicate SignsExactly(tpm: Tpm, request: (StoredKeys, Bytes), m: Moment, r: Option<Signature>)
    requires ValidSelection(tpm.selection)
  {
    var (keys, message) := request;
    r == if |message| == 32
            && tpm.Passes(m.t, keys.key, Some(keys.policy), Some(keys.recovery), m.objects, m.sessions)
         then Some(Signature(keys.key.public.keyId, MessageDigest(message))) else None
  }

  method AssertOne(tpm: Tpm, request: (StoredKeys, Bytes)) returns (r: Option<Signature>)
    requires tpm.Valid()
    modifies tpm.context
    ensures tpm.Valid() && SignsExactly(tpm, request, old(Now(tpm, 0)), r)
    ensures Accounted(old(tpm.context.objects), old(tpm.context.sessions), old(tpm.context.lostFlushes),
                      tpm.context.objects, tpm.context.sessions, tpm.context.lostFlushes)
    ensures var m, m' := old(Now(tpm, 0)), Now(tpm, 0);
            m.lost <= m'.lost && (m'.lost == m.lost ==> SameHandles(m, m'))
  {
    hide Bank, Counter, Selected, ReadDigest, TpmPolicy.Tpm.Passes;
    var (keys, message) := request;
    r := tpm.SignDigestWithPolicy(keys.key, Some(keys.policy), Some(keys.recovery), message);
  }

  lemma AccountedNow(o: set<nat>, s: set<nat>, l: nat)
    ensures Accounted(o, s, l, o, s, l)
  {
  }
}
