/**
 A small TPM 2.0: a PCR bank that the outside world extends at any moment,
 transient objects, policy sessions and the commands the authenticator issues
 (sections 23.7, 23.11 and 23.16 of TPM 2.0 Library Part 3).

 Digests, names, signatures and tickets are symbolic terms, so distinct inputs
 never collide. The environment decides, for every command ever issued, which
 PCR extensions happened just before it and whether it fails.
 */
module TpmModel {
  import opened Bytes

  const PCR_COUNT := 24

  /** One TPM2_PCR_Read returns at most this many digests. */
  const MAX_READ := 8

  datatype CommandCode = SignCode

  datatype Digest =
    | ZeroDigest
    | PcrReset(index: nat)
    | PcrExtend(prior: Digest, event: nat)
    | PcrComposite(values: seq<Digest>)
    | PolicyPcr(prior: Digest, selection: seq<nat>, pcrs: Digest)
    | PolicyAuthorize(keySign: Name, policyRef: Bytes)
    | PolicyCommandCode(prior: Digest, code: CommandCode)
    | PolicyWithRef(policy: Digest, policyRef: Bytes)
    | MessageDigest(bytes: Bytes)

  datatype Public = Public(keyId: nat, authPolicy: Option<Digest>, userWithAuth: bool)

  datatype Name = NameOf(public: Public)

  datatype Private = Private(keyId: nat, auth: Bytes)

  datatype TpmCredential = TpmCredential(private: Private, public: Public, authValue: Option<Bytes>)

  datatype Signature = Signature(keyId: nat, digest: Digest)

  datatype Ticket = Ticket(keySign: Name, digest: Digest)

  /** A loaded key: its transient handle, what the TPM holds under it, and the auth
      value that ESAPI will send for it. */
  datatype KeyHandle = KeyHandle(id: nat, public: Public, auth: Bytes, knownAuth: Bytes)

  // ------------------------------------------------------------- environment

  datatype Extension = Extension(index: nat, event: nat)

  /** What the world does: the extensions before command number t, and its failure. */
  datatype Environment = Environment(extensions: nat -> seq<Extension>, fails: nat -> bool)

  function Extended(bank: seq<Digest>, extensions: seq<Extension>): (r: seq<Digest>)
    ensures |r| == |bank|
  {
    if extensions == [] then bank
    else
      var rest := Extended(bank, extensions[..|extensions| - 1]);
      var x := extensions[|extensions| - 1];
      if x.index < |rest| then rest[x.index := PcrExtend(rest[x.index], x.event)] else rest
  }

  /** The PCR bank that command number t sees. */
  function Bank(env: Environment, t: nat): (bank: seq<Digest>)
    ensures |bank| == PCR_COUNT
  {
    Extended(if t == 0 then seq(PCR_COUNT, (i: nat) => PcrReset(i)) else Bank(env, t - 1), env.extensions(t))
  }

  /** The TPM's PCR update counter at command number t. */
  function Counter(env: Environment, t: nat): nat {
    (if t == 0 then 0 else Counter(env, t - 1)) + |env.extensions(t)|
  }

  /** A selection is a bitmap: the TPM sees its indexes once each, in increasing order. */
  predicate ValidSelection(selection: seq<nat>) {
    && (forall i :: 0 <= i < |selection| ==> selection[i] < PCR_COUNT)
    && (forall i, j :: 0 <= i < j < |selection| ==> selection[i] < selection[j])
  }

  /** The bits below `n` of the bitmap of a list of indexes. */
  function Bitmap(indexes: seq<nat>, n: nat): seq<nat> {
    if n == 0 then [] else Bitmap(indexes, n - 1) + if n - 1 in indexes then [n - 1] else []
  }

  /** A bitmap forgets order and repetition, and nothing else. */
  lemma {:induction false} BitmapIsExact(indexes: seq<nat>, n: nat)
    ensures forall i, j :: 0 <= i < j < |Bitmap(indexes, n)| ==> Bitmap(indexes, n)[i] < Bitmap(indexes, n)[j]
    ensures forall x :: x in Bitmap(indexes, n) <==> x in indexes && x < n
    ensures forall i :: 0 <= i < |Bitmap(indexes, n)| ==> Bitmap(indexes, n)[i] < n
  {
    if n > 0 {
      BitmapIsExact(indexes, n - 1);
    }
  }

  /** The values of the selected PCRs at command number t. */
  function Selected(env: Environment, selection: seq<nat>, t: nat): (r: seq<Digest>)
    requires ValidSelection(selection)
    ensures |r| == |selection|
  {
    seq(|selection|, i requires 0 <= i < |selection| => Bank(env, t)[selection[i]])
  }

  /** The digest the code computes from one PCR read: only the digests it returned. */
  function ReadDigest(env: Environment, selection: seq<nat>, t: nat): Digest
    requires ValidSelection(selection)
  {
    var values := Selected(env, selection, t);
    PcrComposite(if |values| <= MAX_READ then values else values[..MAX_READ])
  }

  predicate NoFaults(env: Environment, from: nat, to: nat) {
    forall t :: from <= t < to ==> !env.fails(t)
  }

  /** No PCR is extended between command `from` and command `to`. */
  predicate Quiet(env: Environment, from: nat, to: nat) {
    forall t :: from < t <= to ==> env.extensions(t) == []
  }

  // --------------------------------------------------- PCRs never go back

  function Depth(d: Digest): nat {
    match d
    case PcrExtend(prior, _) => Depth(prior) + 1
    case _ => 0
  }

  function DepthAt(bank: seq<Digest>, i: nat): nat
    requires i < |bank|
  {
    Depth(bank[i])
  }

  predicate Touches(extensions: seq<Extension>, i: nat) {
    exists k :: 0 <= k < |extensions| && extensions[k].index == i
  }

  lemma {:induction false} ExtensionsDeepen(bank: seq<Digest>, extensions: seq<Extension>, i: nat)
    requires i < |bank|
    ensures DepthAt(Extended(bank, extensions), i) >= DepthAt(bank, i)
    ensures Touches(extensions, i) ==> DepthAt(Extended(bank, extensions), i) > DepthAt(bank, i)
  {
    if extensions != [] {
      var n := |extensions| - 1;
      ExtensionsDeepen(bank, extensions[..n], i);
      if Touches(extensions, i) && extensions[n].index != i {
        var k :| 0 <= k < |extensions| && extensions[k].index == i;
        assert extensions[..n][k].index == i;
      }
    }
  }

  lemma {:induction false} BanksDeepen(env: Environment, a: nat, b: nat, i: nat)
    requires a <= b && i < PCR_COUNT
    ensures DepthAt(Bank(env, b), i) >= DepthAt(Bank(env, a), i)
    decreases b
  {
    if a < b {
      BanksDeepen(env, a, b - 1, i);
      ExtensionsDeepen(Bank(env, b - 1), env.extensions(b), i);
    }
  }

  /** Once a selected PCR has been extended, the selection never shows its old values again. */
  lemma ExtendIsIrreversible(env: Environment, selection: seq<nat>, a: nat, u: nat, b: nat, i: nat)
    requires ValidSelection(selection) && i < |selection|
    requires a < u <= b && Touches(env.extensions(u), selection[i])
    ensures Selected(env, selection, a) != Selected(env, selection, b)
  {
    var pcr := selection[i];
    BanksDeepen(env, a, u - 1, pcr);
    ExtensionsDeepen(Bank(env, u - 1), env.extensions(u), pcr);
    BanksDeepen(env, u, b, pcr);
    assert Selected(env, selection, a)[i] == Bank(env, a)[pcr];
    assert Selected(env, selection, b)[i] == Bank(env, b)[pcr];
  }

  /** No selected PCR is extended between command `from` and command `to`. */
  predicate Untouched(env: Environment, selection: seq<nat>, from: nat, to: nat) {
    forall u, i :: from < u <= to && 0 <= i < |selection| ==> !Touches(env.extensions(u), selection[i])
  }

  lemma {:induction false} UntouchedKeepsValue(bank: seq<Digest>, extensions: seq<Extension>, i: nat)
    requires i < |bank| && !Touches(extensions, i)
    ensures Extended(bank, extensions)[i] == bank[i]
  {
    if extensions != [] {
      var n := |extensions| - 1;
      assert forall k :: 0 <= k < n ==> extensions[..n][k] == extensions[k];
      assert extensions[n].index != i;
      UntouchedKeepsValue(bank, extensions[..n], i);
    }
  }

  lemma {:induction false} UntouchedKeepsPcr(env: Environment, selection: seq<nat>, a: nat, b: nat, i: nat)
    requires ValidSelection(selection) && i < |selection| && a <= b && Untouched(env, selection, a, b)
    ensures Bank(env, a)[selection[i]] == Bank(env, b)[selection[i]]
    decreases b
  {
    if a < b {
      UntouchedKeepsPcr(env, selection, a, b - 1, i);
      UntouchedKeepsValue(Bank(env, b - 1), env.extensions(b), selection[i]);
    }
  }

  /** The selection shows the same values at two commands exactly when none of its PCRs
      was extended in between. */
  lemma SameValuesExactly(env: Environment, selection: seq<nat>, a: nat, b: nat)
    requires ValidSelection(selection) && a <= b
    ensures Selected(env, selection, a) == Selected(env, selection, b) <==> Untouched(env, selection, a, b)
  {
    if Untouched(env, selection, a, b) {
      forall i | 0 <= i < |selection|
        ensures Selected(env, selection, a)[i] == Selected(env, selection, b)[i]
      {
        UntouchedKeepsPcr(env, selection, a, b, i);
      }
    } else {
      var u, i :| a < u <= b && 0 <= i < |selection| && Touches(env.extensions(u), selection[i]);
      ExtendIsIrreversible(env, selection, a, u, b, i);
    }
  }

  lemma {:induction false} CounterGrows(env: Environment, a: nat, b: nat)
    requires a <= b
    ensures Counter(env, a) <= Counter(env, b)
    ensures Counter(env, a) == Counter(env, b) <==> Quiet(env, a, b)
    decreases b
  {
    if a < b {
      CounterGrows(env, a, b - 1);
      if Counter(env, a) == Counter(env, b) {
        assert Quiet(env, a, b);
      } else {
        assert !Quiet(env, a, b - 1) || env.extensions(b) != [];
      }
    }
  }

  lemma {:induction false} QuietKeepsBank(env: Environment, a: nat, b: nat)
    requires a <= b && Quiet(env, a, b)
    ensures Bank(env, a) == Bank(env, b)
    decreases b
  {
    if a < b {
      QuietKeepsBank(env, a, b - 1);
      assert env.extensions(b) == [];
    }
  }

  // ------------------------------------------------------------ the device

  predicate Loadable(c: TpmCredential) {
    c.private.keyId == c.public.keyId
  }

  /** The auth value ESAPI sends for a key: what `tr_set_auth` set, else empty. */
  function KnownAuth(c: TpmCredential): Bytes {
    if c.authValue.Some? then c.authValue.value else []
  }

  /** Handles may only be lost, each by one failed flush; nothing that was live before
      goes away. */
  ghost predicate Accounted(objects: set<nat>, sessions: set<nat>, lost: nat,
                            objects': set<nat>, sessions': set<nat>, lost': nat)
  {
    && objects <= objects' && sessions <= sessions' && lost <= lost'
    && |objects'| + |sessions'| == |objects| + |sessions| + (lost' - lost)
    && (lost' == lost ==> objects' == objects && sessions' == sessions)
  }

  /** An open policy or trial session. */
  class PolicySession {
    const id: nat
    const trial: bool
    var digest: Digest
    var pcrCounter: Option<nat>

    constructor (id: nat, trial: bool)
      ensures this.id == id && this.trial == trial && digest == ZeroDigest && pcrCounter == None
    {
      this.id, this.trial, digest, pcrCounter := id, trial, ZeroDigest, None;
    }
  }

  class Context {
    const env: Environment
    const objectSlots: nat
    const sessionSlots: nat
    var clock: nat
    var objects: set<nat>
    var sessions: set<nat>
    var nextHandle: nat
    var nextKey: nat
    ghost var lostFlushes: nat

    constructor (env: Environment, objectSlots: nat, sessionSlots: nat)
      ensures Valid() && objects == {} && sessions == {} && clock == 0 && lostFlushes == 0
      ensures this.env == env && this.objectSlots == objectSlots && this.sessionSlots == sessionSlots
    {
      this.env, this.objectSlots, this.sessionSlots := env, objectSlots, sessionSlots;
      clock, objects, sessions, nextHandle, nextKey, lostFlushes := 0, {}, {}, 0, 0, 0;
    }

    ghost predicate Valid()
      reads this
    {
      && (forall h :: h in objects ==> h < nextHandle)
      && (forall h :: h in sessions ==> h < nextHandle)
    }

    /** One command is issued: tells whether the environment lets it succeed. */
    method Issue() returns (ok: bool)
      modifies this`clock
      ensures clock == old(clock) + 1 && ok == !env.fails(old(clock))
    {
      ok := !env.fails(clock);
      clock := clock + 1;
    }

    /** Takes a transient object slot for a new handle. */
    method TakeSlot(loadable: bool) returns (r: Option<nat>)
      requires Valid()
      modifies this`clock, this`objects, this`nextHandle
      ensures Valid() && clock == old(clock) + 1
      ensures r.Some? <==> !env.fails(old(clock)) && loadable && |old(objects)| + 1 <= objectSlots
      ensures r.Some? ==> r.value !in old(objects) && objects == old(objects) + {r.value}
      ensures r.None? ==> objects == old(objects)
    {
      var ok := Issue();
      if !ok || !loadable || |objects| >= objectSlots {
        return None;
      }
      r := Some(nextHandle);
      objects := objects + {nextHandle};
      nextHandle := nextHandle + 1;
    }

    method CreatePrimary() returns (r: Option<nat>)
      requires Valid()
      modifies this`clock, this`objects, this`nextHandle
      ensures Valid() && clock == old(clock) + 1
      ensures r.Some? <==> !env.fails(old(clock)) && |old(objects)| + 1 <= objectSlots
      ensures r.Some? ==> r.value !in old(objects) && objects == old(objects) + {r.value}
      ensures r.None? ==> objects == old(objects)
    {
      r := TakeSlot(true);
    }

    /** Loads a key blob; the TPM checks that the private part belongs to the public one. */
    method Load(c: TpmCredential) returns (r: Option<KeyHandle>)
      requires Valid()
      modifies this`clock, this`objects, this`nextHandle
      ensures Valid() && clock == old(clock) + 1
      ensures r.Some? <==> !env.fails(old(clock)) && Loadable(c) && |old(objects)| + 1 <= objectSlots
      ensures r.Some? ==> r.value == KeyHandle(r.value.id, c.public, c.private.auth, [])
                          && r.value.id !in old(objects) && objects == old(objects) + {r.value.id}
      ensures r.None? ==> objects == old(objects)
    {
      var slot := TakeSlot(Loadable(c));
      r := if slot.Some? then Some(KeyHandle(slot.value, c.public, c.private.auth, [])) else None;
    }

    /** TPM2_Create: a new signing key under the storage parent. */
    method Create(policy: Option<Digest>, auth: Option<Bytes>) returns (r: Option<(Private, Public)>)
      modifies this`clock, this`nextKey
      ensures clock == old(clock) + 1
      ensures r.Some? <==> !env.fails(old(clock))
      ensures r.Some? ==> r.value == (Private(old(nextKey), if auth.Some? then auth.value else []),
                                      Public(old(nextKey), policy, auth.Some?))
    {
      var ok := Issue();
      if !ok {
        return None;
      }
      r := Some((Private(nextKey, if auth.Some? then auth.value else []), Public(nextKey, policy, auth.Some?)));
      nextKey := nextKey + 1;
    }

    method FlushObject(handle: nat) returns (ok: bool)
      requires Valid() && handle in objects
      modifies this`clock, this`objects, this`lostFlushes
      ensures Valid() && clock == old(clock) + 1 && ok == !env.fails(old(clock))
      ensures ok ==> objects == old(objects) - {handle} && lostFlushes == old(lostFlushes)
      ensures !ok ==> objects == old(objects) && lostFlushes == old(lostFlushes) + 1
    {
      ok := Issue();
      if ok {
        objects := objects - {handle};
      } else {
        lostFlushes := lostFlushes + 1;
      }
    }

    method StartAuthSession(trial: bool) returns (r: Option<PolicySession>)
      requires Valid()
      modifies this`clock, this`sessions, this`nextHandle
      ensures Valid() && clock == old(clock) + 1
      ensures r.Some? <==> !env.fails(old(clock)) && |old(sessions)| + 1 <= sessionSlots
      ensures r.Some? ==> fresh(r.value) && r.value.id !in old(sessions) && sessions == old(sessions) + {r.value.id}
                          && r.value.trial == trial && r.value.digest == ZeroDigest && r.value.pcrCounter == None
      ensures r.None? ==> sessions == old(sessions)
    {
      var ok := Issue();
      if !ok || |sessions| >= sessionSlots {
        return None;
      }
      var s := new PolicySession(nextHandle, trial);
      r := Some(s);
      sessions := sessions + {nextHandle};
      nextHandle := nextHandle + 1;
    }

    method FlushSession(s: PolicySession) returns (ok: bool)
      requires Valid() && s.id in sessions
      modifies this`clock, this`sessions, this`lostFlushes
      ensures Valid() && clock == old(clock) + 1 && ok == !env.fails(old(clock))
      ensures ok ==> sessions == old(sessions) - {s.id} && lostFlushes == old(lostFlushes)
      ensures !ok ==> sessions == old(sessions) && lostFlushes == old(lostFlushes) + 1
    {
      ok := Issue();
      if ok {
        sessions := sessions - {s.id};
      } else {
        lostFlushes := lostFlushes + 1;
      }
    }

    /** Reads the selected PCRs and hashes what came back. */
    method CurrentPcrDigest(selection: seq<nat>) returns (r: Option<Digest>)
      requires ValidSelection(selection)
      modifies this`clock
      ensures clock == old(clock) + 1
      ensures r == if env.fails(old(clock)) then None else Some(ReadDigest(env, selection, old(clock)))
    {
      var t := clock;
      var ok := Issue();
      r := if ok then Some(ReadDigest(env, selection, t)) else None;
    }

    /** TPM2_PolicyPCR: a real session compares the caller's digest with the current
        PCRs and remembers the update counter; a trial session takes it as given. */
    method PolicyPcrCommand(s: PolicySession, pcrDigest: Digest, selection: seq<nat>) returns (ok: bool)
      requires s.id in sessions && ValidSelection(selection)
      modifies this`clock, s
      ensures clock == old(clock) + 1
      ensures ok <==> !env.fails(old(clock))
                      && (s.trial || pcrDigest == PcrComposite(Selected(env, selection, old(clock))))
      ensures ok ==> s.digest == PolicyPcr(old(s.digest), selection, pcrDigest)
                     && s.pcrCounter == Some(Counter(env, old(clock)))
      ensures !ok ==> unchanged(s)
    {
      var t := clock;
      ok := Issue();
      ok := ok && (s.trial || pcrDigest == PcrComposite(Selected(env, selection, t)));
      if ok {
        s.digest := PolicyPcr(s.digest, selection, pcrDigest);
        s.pcrCounter := Some(Counter(env, t));
      }
    }

    method PolicyGetDigest(s: PolicySession) returns (r: Option<Digest>)
      requires s.id in sessions
      modifies this`clock
      ensures clock == old(clock) + 1
      ensures r == if env.fails(old(clock)) then None else Some(s.digest)
    {
      var ok := Issue();
      r := if ok then Some(s.digest) else None;
    }

    method ReadPublic(k: KeyHandle) returns (r: Option<Name>)
      requires k.id in objects
      modifies this`clock
      ensures clock == old(clock) + 1
      ensures r == if env.fails(old(clock)) then None else Some(NameOf(k.public))
    {
      var ok := Issue();
      r := if ok then Some(NameOf(k.public)) else None;
    }

    /** TPM2_VerifySignature: a ticket for a genuine signature by the loaded key. */
    method VerifySignature(k: KeyHandle, digest: Digest, signature: Signature) returns (r: Option<Ticket>)
      requires k.id in objects
      modifies this`clock
      ensures clock == old(clock) + 1
      ensures r == if !env.fails(old(clock)) && signature == Signature(k.public.keyId, digest)
                   then Some(Ticket(NameOf(k.public), digest)) else None
    {
      var ok := Issue();
      r := if ok && signature == Signature(k.public.keyId, digest) then Some(Ticket(NameOf(k.public), digest)) else None;
    }

    /** TPM2_PolicyAuthorize: a real session must hold the approved policy and a ticket
        for it; then the policy digest restarts from the authority's name. */
    method PolicyAuthorizeCommand(s: PolicySession, approved: Digest, policyRef: Bytes, keySign: Name, ticket: Ticket)
      returns (ok: bool)
      requires s.id in sessions
      modifies this`clock, s`digest
      ensures clock == old(clock) + 1
      ensures ok <==> !env.fails(old(clock))
                      && (s.trial || (old(s.digest) == approved
                                      && ticket == Ticket(keySign, PolicyWithRef(approved, policyRef))))
      ensures s.digest == if ok then PolicyAuthorize(keySign, policyRef) else old(s.digest)
    {
      ok := Issue();
      ok := ok && (s.trial || (s.digest == approved && ticket == Ticket(keySign, PolicyWithRef(approved, policyRef))));
      if ok {
        s.digest := PolicyAuthorize(keySign, policyRef);
      }
    }

    /** TPM2_PolicyCommandCode; every command code used here is TPM2_Sign. */
    method PolicyCommandCodeCommand(s: PolicySession, code: CommandCode) returns (ok: bool)
      requires s.id in sessions
      modifies this`clock, s`digest
      ensures clock == old(clock) + 1
      ensures ok <==> !env.fails(old(clock))
      ensures s.digest == if ok then PolicyCommandCode(old(s.digest), code) else old(s.digest)
    {
      ok := Issue();
      if ok {
        s.digest := PolicyCommandCode(s.digest, code);
      }
    }

    /** TPM2_Sign authorised by the key's auth value. */
    method SignWithPassword(k: KeyHandle, digest: Digest) returns (r: Option<Signature>)
      requires k.id in objects
      modifies this`clock
      ensures clock == old(clock) + 1
      ensures r == if !env.fails(old(clock)) && k.public.userWithAuth && k.knownAuth == k.auth
                   then Some(Signature(k.public.keyId, digest)) else None
    {
      var ok := Issue();
      r := if ok && k.public.userWithAuth && k.knownAuth == k.auth
      then Some(Signature(k.public.keyId, digest)) else None;
    }

    /** TPM2_Sign authorised by a policy session: its digest must be the key's policy and
        no PCR may have changed since the session's PolicyPCR. */
    method SignWithPolicy(k: KeyHandle, s: PolicySession, digest: Digest) returns (r: Option<Signature>)
      requires k.id in objects && s.id in sessions
      modifies this`clock
      ensures clock == old(clock) + 1
      ensures r == if !env.fails(old(clock)) && !s.trial && k.public.authPolicy == Some(s.digest)
                      && (s.pcrCounter.None? || s.pcrCounter.value == Counter(env, old(clock)))
                   then Some(Signature(k.public.keyId, digest)) else None
    {
      var t := clock;
      var ok := Issue();
      r := if ok && !s.trial && k.public.authPolicy == Some(s.digest)
              && (s.pcrCounter.None? || s.pcrCounter.value == Counter(env, t))
      then Some(Signature(k.public.keyId, digest)) else None;
    }

    /** TPM2_ObjectChangeAuth: the same key wrapped with a new auth value. */
    method ObjectChangeAuth(k: KeyHandle, newAuth: Bytes) returns (r: Option<Private>)
      requires k.id in objects
      modifies this`clock
      ensures clock == old(clock) + 1
      ensures r == if !env.fails(old(clock)) && k.knownAuth == k.auth
                   then Some(Private(k.public.keyId, newAuth)) else None
    {
      var ok := Issue();
      r := if ok && k.knownAuth == k.auth then Some(Private(k.public.keyId, newAuth)) else None;
    }
  }
}
