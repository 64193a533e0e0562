/**
 The PolicyAuthorize protocol of the authenticator: a credential key carries a
 fixed policy that names a recovery authority; the authority signs the PCR
 values currently approved, and re-signs them when the platform changes.
 */
module TpmPolicy {
  import opened Bytes
  import opened TpmModel

  /** A credential's policy package as it is stored. */
  datatype PcrPolicyBinding = PcrPolicyBinding(
    selection: seq<nat>,
    digest: Digest,
    policyRef: Option<Bytes>,
    authorityName: Option<Name>,
    authoritySignature: Option<Signature>)

  /** The digest of a session that saw only PolicyPCR with these values. */
  function PcrPolicy(selection: seq<nat>, pcrs: Digest): Digest {
    PolicyPcr(ZeroDigest, selection, pcrs)
  }

  /** The policy of every key authorised by `name` under `policyRef`. */
  function FinalPolicy(name: Name, policyRef: Bytes): Digest {
    PolicyCommandCode(PolicyAuthorize(name, policyRef), SignCode)
  }

  predicate HasAuthority(policy: Option<PcrPolicyBinding>, authority: Option<TpmCredential>) {
    && policy.Some? && authority.Some?
    && policy.value.policyRef.Some? && policy.value.authorityName.Some? && policy.value.authoritySignature.Some?
  }

  /** Can the stored auth value use the key for signing? */
  predicate Usable(c: TpmCredential) {
    Loadable(c) && c.public.userWithAuth && KnownAuth(c) == c.private.auth
  }

  /** The stored package carries the authority's signature over this PCR policy. */
  predicate Approves(policy: PcrPolicyBinding, authority: TpmCredential, pcrPolicy: Digest)
    requires policy.policyRef.Some?
  {
    && policy.authorityName == Some(NameOf(authority.public))
    && policy.authoritySignature
       == Some(Signature(authority.public.keyId, PolicyWithRef(pcrPolicy, policy.policyRef.value)))
  }

  class Tpm {
    const context: Context
    const selection: seq<nat>

    /** The selection is the bitmap of the configured indexes. */
    constructor (context: Context, indexes: seq<nat>)
      requires forall i :: 0 <= i < |indexes| ==> indexes[i] < PCR_COUNT
      ensures this.context == context && ValidSelection(selection)
      ensures forall x :: x in selection <==> x in indexes
    {
      this.context, this.selection := context, Bitmap(indexes, PCR_COUNT);
      new;
      BitmapIsExact(indexes, PCR_COUNT);
    }

    ghost predicate Valid()
      reads this, context
    {
      context.Valid() && ValidSelection(selection)
    }

    // ------------------------------------------------ signing an assertion

    /** When a signature comes out: a condition on the environment from tick `t` on, the
        stored package and the free slots. Three objects and one session are needed. */
    ghost predicate Passes(t: nat, credential: TpmCredential, policy: Option<PcrPolicyBinding>,
                           authority: Option<TpmCredential>, objects: nat, sessions: nat)
      requires ValidSelection(selection)
    {
      && NoFaults(context.env, t, t + 2)
      && objects + 2 <= context.objectSlots
      && Loadable(credential)
      && if HasAuthority(policy, authority) then
           AuthorityPasses(t + 2, credential.public, policy.value, authority.value, objects + 2, sessions)
         else if policy.Some? then
           PcrPolicyPasses(t + 2, credential.public, sessions)
         else
           !context.env.fails(t + 2) && credential.public.userWithAuth && credential.private.auth == []
    }

    /** The path without an authority, from its PCR read at tick `t`. */
    ghost predicate PcrPolicyPasses(t: nat, key: Public, sessions: nat)
      requires ValidSelection(selection)
    {
      && NoFaults(context.env, t, t + 4)
      && sessions + 1 <= context.sessionSlots
      && ReadDigest(context.env, selection, t) == PcrComposite(Selected(context.env, selection, t + 2))
      && key.authPolicy == Some(PcrPolicy(selection, ReadDigest(context.env, selection, t)))
      && Counter(context.env, t + 2) == Counter(context.env, t + 3)
    }

    /** The path through PolicyAuthorize, from its PCR read at tick `t`. */
    ghost predicate AuthorityPasses(t: nat, key: Public, policy: PcrPolicyBinding, authority: TpmCredential,
                                    objects: nat, sessions: nat)
      requires ValidSelection(selection) && HasAuthority(Some(policy), Some(authority))
    {
      && NoFaults(context.env, t, t + 10)
      && sessions + 1 <= context.sessionSlots && objects + 1 <= context.objectSlots
      && ReadDigest(context.env, selection, t) == PcrComposite(Selected(context.env, selection, t + 2))
      && Counter(context.env, t + 2) == Counter(context.env, t + 9)
      && Loadable(authority)
      && Approves(policy, authority, PcrPolicy(selection, ReadDigest(context.env, selection, t)))
      && key.authPolicy == Some(FinalPolicy(NameOf(authority.public), policy.policyRef.value))
    }

    /** Signs with a credential key. The nested calls below are the scopes of the drop
        guards: each handle is flushed when its scope ends, however it ends, and a
        failure of that flush is ignored. */
    method SignDigestWithPolicy(credential: TpmCredential, policy: Option<PcrPolicyBinding>,
                                authority: Option<TpmCredential>, message: Bytes)
      returns (r: Option<Signature>)
      requires Valid()
      modifies context
      ensures old(context.clock) <= context.clock && (|message| == 32 ==> old(context.clock) < context.clock)
      ensures Valid()
      ensures r.Some? ==> r.value == Signature(credential.public.keyId, MessageDigest(message))
      ensures r.Some? <==> |message| == 32
                           && Passes(old(context.clock), credential, policy, authority,
                                     |old(context.objects)|, |old(context.sessions)|)
      ensures Accounted(old(context.objects), old(context.sessions), old(context.lostFlushes),
                        context.objects, context.sessions, context.lostFlushes)
    {
      hide Bank, Counter, Selected, ReadDigest;
      if |message| != 32 {
        return None;
      }
      var parent := context.CreatePrimary();
      if parent == None {
        return None;
      }
      r := SignUnderParent(credential, policy, authority, message);
      var _ := context.FlushObject(parent.value);
    }

    method SignUnderParent(credential: TpmCredential, policy: Option<PcrPolicyBinding>,
                           authority: Option<TpmCredential>, message: Bytes)
      returns (r: Option<Signature>)
      requires Valid()
      modifies context
      ensures old(context.clock) < context.clock
      ensures Valid()
      ensures r.Some? ==> r.value == Signature(credential.public.keyId, MessageDigest(message))
      ensures r.Some? <==>
                var t, objects, sessions := old(context.clock), |old(context.objects)|, |old(context.sessions)|;
                && !context.env.fails(t) && objects + 1 <= context.objectSlots && Loadable(credential)
                && if HasAuthority(policy, authority) then
                     AuthorityPasses(t + 1, credential.public, policy.value, authority.value, objects + 1, sessions)
                   else if policy.Some? then
                     PcrPolicyPasses(t + 1, credential.public, sessions)
                   else
                     !context.env.fails(t + 1) && credential.public.userWithAuth && credential.private.auth == []
      ensures Accounted(old(context.objects), old(context.sessions), old(context.lostFlushes),
                        context.objects, context.sessions, context.lostFlushes)
    {
      hide Bank, Counter, Selected, ReadDigest, AuthorityPasses, PcrPolicyPasses;
      var key := context.Load(credential);
      if key == None {
        return None;
      }
      if HasAuthority(policy, authority) {
        r := SignWithAuthority(key.value, policy.value, authority.value, message);
      } else if policy.Some? {
        r := SignWithPcrPolicy(key.value, message);
      } else {
        r := context.SignWithPassword(key.value, MessageDigest(message));
      }
      var _ := context.FlushObject(key.value.id);
    }

    method SignWithPcrPolicy(key: KeyHandle, message: Bytes) returns (r: Option<Signature>)
      requires Valid() && key.id in context.objects
      modifies context
      ensures old(context.clock) < context.clock
      ensures Valid() && key.id in context.objects
      ensures r.Some? ==> r.value == Signature(key.public.keyId, MessageDigest(message))
      ensures r.Some? <==> PcrPolicyPasses(old(context.clock), key.public, |old(context.sessions)|)
      ensures Accounted(old(context.objects), old(context.sessions), old(context.lostFlushes),
                        context.objects, context.sessions, context.lostFlushes)
    {
      hide Bank, Counter, Selected, ReadDigest;
      var current := context.CurrentPcrDigest(selection);
      if current == None {
        return None;
      }
      var session := context.StartAuthSession(false);
      if session == None {
        return None;
      }
      r := SignInPcrSession(key, session.value, current.value, message);
      var _ := context.FlushSession(session.value);
    }

    method SignInPcrSession(key: KeyHandle, session: PolicySession, pcrs: Digest, message: Bytes)
      returns (r: Option<Signature>)
      requires ValidSelection(selection) && key.id in context.objects
      requires session.id in context.sessions && !session.trial && session.digest == ZeroDigest
      modifies context`clock, session
      ensures old(context.clock) < context.clock
      ensures r.Some? ==> r.value == Signature(key.public.keyId, MessageDigest(message))
      ensures r.Some? <==>
                var t, env := old(context.clock), context.env;
                && NoFaults(env, t, t + 2)
                && pcrs == PcrComposite(Selected(env, selection, t))
                && key.public.authPolicy == Some(PcrPolicy(selection, pcrs))
                && Counter(env, t) == Counter(env, t + 1)
    {
      hide Bank, Counter, Selected, ReadDigest;
      var ok := context.PolicyPcrCommand(session, pcrs, selection);
      if !ok {
        return None;
      }
      r := context.SignWithPolicy(key, session, MessageDigest(message));
    }

    method SignWithAuthority(key: KeyHandle, policy: PcrPolicyBinding, authority: TpmCredential, message: Bytes)
      returns (r: Option<Signature>)
      requires Valid() && key.id in context.objects && HasAuthority(Some(policy), Some(authority))
      modifies context
      ensures old(context.clock) < context.clock
      ensures Valid() && key.id in context.objects
      ensures r.Some? ==> r.value == Signature(key.public.keyId, MessageDigest(message))
      ensures r.Some? <==> AuthorityPasses(old(context.clock), key.public, policy, authority,
                                           |old(context.objects)|, |old(context.sessions)|)
      ensures Accounted(old(context.objects), old(context.sessions), old(context.lostFlushes),
                        context.objects, context.sessions, context.lostFlushes)
    {
      hide Bank, Counter, Selected, ReadDigest, Approves;
      var current := context.CurrentPcrDigest(selection);
      if current == None {
        return None;
      }
      var session := context.StartAuthSession(false);
      if session == None {
        return None;
      }
      r := SignInSession(key, session.value, current.value, policy, authority, message);
      var _ := context.FlushSession(session.value);
    }

    /** From PolicyPCR on, in an open policy session. */
    method SignInSession(key: KeyHandle, session: PolicySession, pcrs: Digest, policy: PcrPolicyBinding,
                         authority: TpmCredential, message: Bytes)
      returns (r: Option<Signature>)
      requires Valid() && key.id in context.objects && HasAuthority(Some(policy), Some(authority))
      requires session.id in context.sessions && !session.trial && session.digest == ZeroDigest
      modifies context, session
      ensures old(context.clock) < context.clock
      ensures Valid() && key.id in context.objects && context.sessions == old(context.sessions)
      ensures r.Some? ==> r.value == Signature(key.public.keyId, MessageDigest(message))
      ensures r.Some? <==>
                var t, env := old(context.clock), context.env;
                && NoFaults(env, t, t + 8)
                && |old(context.objects)| + 1 <= context.objectSlots
                && pcrs == PcrComposite(Selected(env, selection, t))
                && Counter(env, t) == Counter(env, t + 7)
                && Loadable(authority)
                && Approves(policy, authority, PcrPolicy(selection, pcrs))
                && key.public.authPolicy == Some(FinalPolicy(NameOf(authority.public), policy.policyRef.value))
      ensures Accounted(old(context.objects), old(context.sessions), old(context.lostFlushes),
                        context.objects, context.sessions, context.lostFlushes)
    {
      hide Bank, Counter, Selected, ReadDigest, Approves;
      var ok := context.PolicyPcrCommand(session, pcrs, selection);
      if !ok {
        return None;
      }
      var approved := context.PolicyGetDigest(session);
      if approved == None {
        return None;
      }
      var handle := context.Load(authority);
      if handle == None {
        return None;
      }
      r := AuthorizeAndSign(key, session, approved.value, handle.value, policy, authority, message);
      var _ := context.FlushObject(handle.value.id);
    }

    /** With the authority loaded: check its name, turn the stored signature into a
        ticket, authorise the session and sign. */
    method AuthorizeAndSign(key: KeyHandle, session: PolicySession, approved: Digest, handle: KeyHandle,
                            policy: PcrPolicyBinding, authority: TpmCredential, message: Bytes)
      returns (r: Option<Signature>)
      requires key.id in context.objects && handle == KeyHandle(handle.id, authority.public, authority.private.auth, [])
      requires handle.id in context.objects && session.id in context.sessions
      requires !session.trial && session.digest == approved && session.pcrCounter.Some?
      requires HasAuthority(Some(policy), Some(authority))
      modifies context`clock, session`digest
      ensures old(context.clock) < context.clock
      ensures r.Some? ==> r.value == Signature(key.public.keyId, MessageDigest(message))
      ensures r.Some? <==>
                var t, env := old(context.clock), context.env;
                && NoFaults(env, t, t + 5)
                && Approves(policy, authority, approved)
                && key.public.authPolicy == Some(FinalPolicy(NameOf(authority.public), policy.policyRef.value))
                && session.pcrCounter.value == Counter(env, t + 4)
    {
      hide Bank, Counter, Selected, ReadDigest;
      var actualName := context.ReadPublic(handle);
      if actualName == None {
        return None;
      }
      if actualName.value != policy.authorityName.value {
        return None;
      }
      var authorityKey := handle.(knownAuth := KnownAuth(authority));
      var toSign := PolicyWithRef(approved, policy.policyRef.value);
      var ticket := context.VerifySignature(authorityKey, toSign, policy.authoritySignature.value);
      if ticket == None {
        return None;
      }
      var ok := context.PolicyAuthorizeCommand(session, approved, policy.policyRef.value, actualName.value, ticket.value);
      if !ok {
        return None;
      }
      ok := context.PolicyCommandCodeCommand(session, SignCode);
      if !ok {
        return None;
      }
      r := context.SignWithPolicy(key, session, MessageDigest(message));
    }

    // ------------------------------------------- creating and updating keys

    /** A new signing key under a transient storage parent. */
    method CreateCredentialKey(policy: Option<PcrPolicyBinding>, auth: Option<Bytes>) returns (r: Option<TpmCredential>)
      requires Valid()
      modifies context
      ensures old(context.clock) < context.clock
      ensures r.Some? ==> context.clock == old(context.clock) + 3
      ensures Valid()
      ensures r.Some? <==> NoFaults(context.env, old(context.clock), old(context.clock) + 3)
                           && |old(context.objects)| + 1 <= context.objectSlots
      ensures r.Some? ==> var c := r.value;
                          && Loadable(c) && c.authValue == auth && c.private.auth == KnownAuth(c)
                          && c.public.userWithAuth == auth.Some?
                          && c.public.authPolicy == (if policy.Some? then Some(policy.value.digest) else None)
                          && context.lostFlushes == old(context.lostFlushes)
      ensures Accounted(old(context.objects), old(context.sessions), old(context.lostFlushes),
                        context.objects, context.sessions, context.lostFlushes)
    {
      hide Bank, Counter, Selected, ReadDigest;
      var parent := context.CreatePrimary();
      if parent == None {
        return None;
      }
      var key := context.Create(if policy.Some? then Some(policy.value.digest) else None, auth);
      var ok := context.FlushObject(parent.value);
      if !ok || key == None {
        return None;
      }
      r := Some(TpmCredential(key.value.0, key.value.1, auth));
    }

    /** The policy digest of a trial session that saw PolicyPCR with these values. */
    method TrialPcrPolicy(pcrs: Digest) returns (r: Option<Digest>)
      requires Valid()
      modifies context
      ensures old(context.clock) < context.clock
      ensures Valid()
      ensures r.Some? <==> NoFaults(context.env, old(context.clock), old(context.clock) + 4)
                           && |old(context.sessions)| + 1 <= context.sessionSlots
      ensures r.Some? ==> r.value == PcrPolicy(selection, pcrs) && context.clock == old(context.clock) + 4
      ensures r.Some? ==> && context.objects == old(context.objects) && context.sessions == old(context.sessions)
                          && context.lostFlushes == old(context.lostFlushes)
    {
      hide Bank, Counter, Selected, ReadDigest;
      var session := context.StartAuthSession(true);
      if session == None {
        return None;
      }
      var ok := context.PolicyPcrCommand(session.value, pcrs, selection);
      if !ok {
        return None;
      }
      r := context.PolicyGetDigest(session.value);
      if r == None {
        return None;
      }
      ok := context.FlushSession(session.value);
      if !ok {
        return None;
      }
    }

    /** The PCR-only policy of the values read now. */
    method CreateSecureBootPolicy() returns (r: Option<PcrPolicyBinding>)
      requires Valid()
      modifies context
      ensures old(context.clock) < context.clock
      ensures r.Some? ==> context.clock == old(context.clock) + 5
      ensures Valid()
      ensures r.Some? <==> NoFaults(context.env, old(context.clock), old(context.clock) + 5)
                           && |old(context.sessions)| + 1 <= context.sessionSlots
      ensures r.Some? ==> r.value == PcrPolicyBinding(
                            selection, PcrPolicy(selection, ReadDigest(context.env, selection, old(context.clock))),
                            None, None, None)
      ensures r.Some? ==> && context.objects == old(context.objects) && context.sessions == old(context.sessions)
                          && context.lostFlushes == old(context.lostFlushes)
    {
      hide Bank, Counter, Selected, ReadDigest;
      var current := context.CurrentPcrDigest(selection);
      if current == None {
        return None;
      }
      var digest := TrialPcrPolicy(current.value);
      if digest == None {
        return None;
      }
      r := Some(PcrPolicyBinding(selection, digest.value, None, None, None));
    }

    /** Loads the authority key, with its auth value, under a new storage parent. */
    method LoadAuthority(authority: TpmCredential) returns (r: Option<(nat, KeyHandle)>)
      requires Valid()
      modifies context
      ensures old(context.clock) < context.clock
      ensures Valid()
      ensures r.Some? <==> NoFaults(context.env, old(context.clock), old(context.clock) + 2)
                           && |old(context.objects)| + 2 <= context.objectSlots && Loadable(authority)
      ensures r.Some? ==>
                var (parent, key) := r.value;
                && key == KeyHandle(key.id, authority.public, authority.private.auth, KnownAuth(authority))
                && parent != key.id && parent !in old(context.objects) && key.id !in old(context.objects)
                && context.objects == old(context.objects) + {parent, key.id}
                && context.clock == old(context.clock) + 2
      ensures context.sessions == old(context.sessions)
      ensures r.Some? ==> context.lostFlushes == old(context.lostFlushes)
    {
      hide Bank, Counter, Selected, ReadDigest;
      var parent := context.CreatePrimary();
      if parent == None {
        return None;
      }
      var key := context.Load(authority);
      if key == None {
        return None;
      }
      r := Some((parent.value, key.value.(knownAuth := KnownAuth(authority))));
    }

    /** The authority's signature over a PCR policy and reference. */
    method SignRecoveryPolicy(authority: TpmCredential, approved: Digest, policyRef: Bytes)
      returns (r: Option<Signature>)
      requires Valid()
      modifies context
      ensures old(context.clock) < context.clock
      ensures Valid()
      ensures r.Some? <==> NoFaults(context.env, old(context.clock), old(context.clock) + 5)
                           && |old(context.objects)| + 2 <= context.objectSlots && Usable(authority)
      ensures r.Some? ==> r.value == Signature(authority.public.keyId, PolicyWithRef(approved, policyRef))
                          && context.clock == old(context.clock) + 5
      ensures r.Some? ==> && context.objects == old(context.objects) && context.sessions == old(context.sessions)
                          && context.lostFlushes == old(context.lostFlushes)
    {
      hide Bank, Counter, Selected, ReadDigest;
      var loaded := LoadAuthority(authority);
      if loaded == None {
        return None;
      }
      var (parent, key) := loaded.value;
      r := context.SignWithPassword(key, PolicyWithRef(approved, policyRef));
      if r == None {
        return None;
      }
      var ok := context.FlushObject(key.id);
      if !ok {
        return None;
      }
      ok := context.FlushObject(parent);
      if !ok {
        return None;
      }
    }

    /** The first policy package of a credential: PCR values approved by its authority. */
    method CreateAuthorizedPolicy(approved: PcrPolicyBinding, authority: TpmCredential, policyRef: Bytes)
      returns (r: Option<PcrPolicyBinding>)
      requires Valid()
      modifies context
      ensures old(context.clock) < context.clock
      ensures r.Some? ==> context.clock == old(context.clock) + 18
      ensures Valid()
      ensures r.Some? <==> NoFaults(context.env, old(context.clock), old(context.clock) + 18)
                           && |old(context.objects)| + 2 <= context.objectSlots
                           && |old(context.sessions)| + 1 <= context.sessionSlots && Usable(authority)
      ensures r.Some? ==> && r.value.digest == FinalPolicy(NameOf(authority.public), policyRef)
                          && r.value.policyRef == Some(policyRef)
                          && r.value.selection == approved.selection
                          && Approves(r.value, authority, approved.digest)
      ensures r.Some? ==> && context.objects == old(context.objects) && context.sessions == old(context.sessions)
                          && context.lostFlushes == old(context.lostFlushes)
    {
      hide Bank, Counter, Selected, ReadDigest;
      var signature := SignRecoveryPolicy(authority, approved.digest, policyRef);
      if signature == None {
        return None;
      }
      var verified := VerifyPolicySignature(authority, PolicyWithRef(approved.digest, policyRef), signature.value);
      if verified == None {
        return None;
      }
      var (key, name, ticket) := verified.value;
      var current := context.CurrentPcrDigest(selection);
      if current == None {
        return None;
      }
      var digest := TrialAuthorize(current.value, approved.digest, policyRef, name, ticket, Some(key));
      if digest == None {
        return None;
      }
      r := Some(PcrPolicyBinding(approved.selection, digest.value, Some(policyRef), Some(name), Some(signature.value)));
    }

    /** Loads the authority, reads its name and turns a signature into a ticket; the key
        stays loaded, its parent does not. */
    method VerifyPolicySignature(authority: TpmCredential, toSign: Digest, signature: Signature)
      returns (r: Option<(KeyHandle, Name, Ticket)>)
      requires Valid()
      modifies context
      ensures old(context.clock) < context.clock
      ensures Valid()
      ensures r.Some? <==> NoFaults(context.env, old(context.clock), old(context.clock) + 5)
                           && |old(context.objects)| + 2 <= context.objectSlots && Loadable(authority)
                           && signature == Signature(authority.public.keyId, toSign)
      ensures r.Some? ==> var (key, name, ticket) := r.value;
                          && name == NameOf(authority.public) && ticket == Ticket(name, toSign)
                          && key.id !in old(context.objects) && context.objects == old(context.objects) + {key.id}
                          && context.clock == old(context.clock) + 5
      ensures context.sessions == old(context.sessions)
      ensures r.Some? ==> context.lostFlushes == old(context.lostFlushes)
    {
      hide Bank, Counter, Selected, ReadDigest;
      var loaded := LoadAuthority(authority);
      if loaded == None {
        return None;
      }
      var (parent, key) := loaded.value;
      var name := context.ReadPublic(key);
      if name == None {
        return None;
      }
      var ticket := context.VerifySignature(key, toSign, signature);
      if ticket == None {
        return None;
      }
      var ok := context.FlushObject(parent);
      if !ok {
        return None;
      }
      r := Some((key, name.value, ticket.value));
    }

    /** The final policy digest, computed in a trial session: PolicyPCR, PolicyAuthorize
        and PolicyCommandCode. `loaded` is a key handle to flush on the way. */
    method TrialAuthorize(pcrs: Digest, approved: Digest, policyRef: Bytes, name: Name, ticket: Ticket,
                          loaded: Option<KeyHandle>)
      returns (r: Option<Digest>)
      requires Valid() && (loaded.Some? ==> loaded.value.id in context.objects)
      modifies context
      ensures old(context.clock) < context.clock
      ensures Valid()
      ensures r.Some? <==> NoFaults(context.env, old(context.clock),
                                    old(context.clock) + if loaded.Some? then 7 else 6)
                           && |old(context.sessions)| + 1 <= context.sessionSlots
      ensures r.Some? ==> && r.value == FinalPolicy(name, policyRef)
                          && context.objects == old(context.objects) - (if loaded.Some? then {loaded.value.id} else {})
                          && context.sessions == old(context.sessions)
                          && context.lostFlushes == old(context.lostFlushes)
                          && context.clock == old(context.clock) + if loaded.Some? then 7 else 6
    {
      hide Bank, Counter, Selected, ReadDigest;
      var session := context.StartAuthSession(true);
      if session == None {
        return None;
      }
      var ok := context.PolicyPcrCommand(session.value, pcrs, selection);
      if !ok {
        return None;
      }
      ok := context.PolicyAuthorizeCommand(session.value, approved, policyRef, name, ticket);
      if !ok {
        return None;
      }
      if loaded.Some? {
        ok := context.FlushObject(loaded.value.id);
        if !ok {
          return None;
        }
      }
      r := FinishTrial(session.value);
    }

    /** PolicyCommandCode, then the digest, then the end of the trial session. */
    method FinishTrial(session: PolicySession) returns (r: Option<Digest>)
      requires Valid() && session.id in context.sessions
      modifies context, session
      ensures old(context.clock) < context.clock
      ensures Valid() && context.objects == old(context.objects)
      ensures r.Some? <==> NoFaults(context.env, old(context.clock), old(context.clock) + 3)
      ensures r.Some? ==> && r.value == PolicyCommandCode(old(session.digest), SignCode)
                          && context.sessions == old(context.sessions) - {session.id}
                          && context.lostFlushes == old(context.lostFlushes)
                          && context.clock == old(context.clock) + 3
    {
      hide Bank, Counter, Selected, ReadDigest;
      var ok := context.PolicyCommandCodeCommand(session, SignCode);
      if !ok {
        return None;
      }
      r := context.PolicyGetDigest(session);
      if r == None {
        return None;
      }
      ok := context.FlushSession(session);
      if !ok {
        return None;
      }
    }

    /** Re-approves the PCR values read now, under the stored name and reference. */
    method UpdateAuthorizedPolicy(authority: TpmCredential, authorityName: Name, policyRef: Bytes)
      returns (r: Option<PcrPolicyBinding>)
      requires Valid()
      modifies context
      ensures old(context.clock) < context.clock
      ensures r.Some? ==> context.clock == old(context.clock) + 17
      ensures Valid()
      ensures r.Some? <==> NoFaults(context.env, old(context.clock), old(context.clock) + 17)
                           && |old(context.objects)| + 2 <= context.objectSlots
                           && |old(context.sessions)| + 1 <= context.sessionSlots && Usable(authority)
      ensures r.Some? ==>
                var pcrs := ReadDigest(context.env, selection, old(context.clock));
                && r.value.digest == FinalPolicy(authorityName, policyRef)
                && r.value.selection == selection
                && r.value.policyRef == Some(policyRef) && r.value.authorityName == Some(authorityName)
                && r.value.authoritySignature
                   == Some(Signature(authority.public.keyId, PolicyWithRef(PcrPolicy(selection, pcrs), policyRef)))
      ensures r.Some? ==> && context.objects == old(context.objects) && context.sessions == old(context.sessions)
                          && context.lostFlushes == old(context.lostFlushes)
    {
      hide Bank, Counter, Selected, ReadDigest;
      var current := context.CurrentPcrDigest(selection);
      if current == None {
        return None;
      }
      var pcrPolicy := TrialPcrPolicy(current.value);
      if pcrPolicy == None {
        return None;
      }
      var signed := SignAndVerify(authority, PolicyWithRef(pcrPolicy.value, policyRef));
      if signed == None {
        return None;
      }
      var (parent, signature, ticket) := signed.value;
      var digest := TrialAuthorize(current.value, pcrPolicy.value, policyRef, authorityName, ticket, None);
      if digest == None {
        return None;
      }
      var ok := context.FlushObject(parent);
      if !ok {
        return None;
      }
      r := Some(PcrPolicyBinding(selection, digest.value, Some(policyRef), Some(authorityName), Some(signature)));
    }

    /** Signs with the authority and verifies in one load; the parent stays loaded. */
    method SignAndVerify(authority: TpmCredential, toSign: Digest)
      returns (r: Option<(nat, Signature, Ticket)>)
      requires Valid()
      modifies context
      ensures old(context.clock) < context.clock
      ensures Valid()
      ensures r.Some? <==> NoFaults(context.env, old(context.clock), old(context.clock) + 5)
                           && |old(context.objects)| + 2 <= context.objectSlots && Usable(authority)
      ensures r.Some? ==> var (parent, signature, ticket) := r.value;
                          && signature == Signature(authority.public.keyId, toSign)
                          && parent !in old(context.objects) && context.objects == old(context.objects) + {parent}
                          && context.clock == old(context.clock) + 5
      ensures context.sessions == old(context.sessions)
      ensures r.Some? ==> context.lostFlushes == old(context.lostFlushes)
    {
      hide Bank, Counter, Selected, ReadDigest;
      var loaded := LoadAuthority(authority);
      if loaded == None {
        return None;
      }
      var (parent, key) := loaded.value;
      var signature := context.SignWithPassword(key, toSign);
      if signature == None {
        return None;
      }
      var ticket := context.VerifySignature(key, toSign, signature.value);
      if ticket == None {
        return None;
      }
      var ok := context.FlushObject(key.id);
      if !ok {
        return None;
      }
      r := Some((parent, signature.value, ticket.value));
    }

    /** Re-wraps a key with a new auth value; its public part, hence its name, stays. */
    method ChangeKeyAuth(credential: TpmCredential, newAuth: Bytes) returns (r: Option<TpmCredential>)
      requires Valid()
      modifies context
      ensures old(context.clock) < context.clock
      ensures r.Some? ==> context.clock == old(context.clock) + 5
      ensures Valid()
      ensures r.Some? <==> NoFaults(context.env, old(context.clock), old(context.clock) + 5)
                           && |old(context.objects)| + 2 <= context.objectSlots
                           && Loadable(credential) && KnownAuth(credential) == credential.private.auth
      ensures r.Some? ==> r.value == TpmCredential(Private(credential.public.keyId, newAuth), credential.public,
                                                   Some(newAuth))
      ensures r.Some? ==> && context.objects == old(context.objects) && context.sessions == old(context.sessions)
                          && context.lostFlushes == old(context.lostFlushes)
    {
      hide Bank, Counter, Selected, ReadDigest;
      var loaded := LoadAuthority(credential);
      if loaded == None {
        return None;
      }
      var (parent, key) := loaded.value;
      var private := context.ObjectChangeAuth(key, newAuth);
      if private == None {
        return None;
      }
      var ok := context.FlushObject(key.id);
      if !ok {
        return None;
      }
      ok := context.FlushObject(parent);
      if !ok {
        return None;
      }
      r := Some(TpmCredential(private.value, credential.public, Some(newAuth)));
    }
  }
}
