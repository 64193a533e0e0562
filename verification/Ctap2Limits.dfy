/**
 Runs that show what the authenticator does not keep: a save forgets the rows that
 the session does not see, and a deletion shifts the credentials under a pending
 assertion.
 */
module Ctap2Limits {
  import opened Bytes
  import opened Store
  import opened Database
  import opened AuthState
  import opened Selection
  import opened Ctap2
  import Canonical
  import Cbor

  // ------------------------------------------------ what a registration forgets

  /** A registration that reaches the store drops exactly the rows the cache does not have:
      from a healthy state those of other users, after a failed load all of them. */
  method RegisterAndForget(a: Authenticator, make: Option<MakeCredentialRequest>, env: Env) returns (r: Result<Response>)
    requires a.Valid() && a.pending == None && a.management == None && a.clock <= env.now <= env.later
    requires env.newId !in a.usedIds
    modifies a`credentials, a`usedIds, a`token, a`tokenLog, a`clock, a`storeHealthy, a.store`rows
    ensures r.Ok? <==> a.Registers(make, old(a.credentials), old(a.token), env)
    ensures r.Ok? && !env.storeFault ==>
              forall id :: id in old(a.store.rows) ==>
                && (id !in a.store.rows <==> !HasCredential(old(a.credentials), id))
                && (old(a.storeHealthy) ==> (id !in a.store.rows <==> !Visible(old(a.store.rows)[id], a.uid)))
  {
    hide Authenticator.Registers, Database.Sound, Authenticator.MakeCheck, Authenticator.CheckEvents,
         Authenticator.CheckedToken, CredentialStore.Valid, TableOf, ToStoredAll, Agree, Visible;
    ghost var creds, rows, healthy := a.credentials, a.store.rows, a.storeHealthy;
    KnownIds(a, env.newId);
    a.ValidParts();
    hide Authenticator.Valid;
    r := a.HandleMakeCredential(make, env);
    if r.Ok? && !env.storeFault {
      a.ValidParts();
      forall id | id in rows
        ensures id !in a.store.rows <==> !HasCredential(creds, id)
        ensures healthy ==> (id !in a.store.rows <==> !Visible(rows[id], a.uid))
      {
        SaveLosesExactly(a.credentials, rows, if env.keyReadable then Some(a.store.hmacKey) else None, a.uid, id);
        HasCredentialOfLonger(creds, a.credentials[|creds|], id);
        if healthy {
          AgreeSees(creds, rows, a.uid, id);
        }
      }
    }
  }

  lemma KnownIds(a: Authenticator, id: Bytes)
    requires a.Valid() && id !in a.usedIds
    ensures id !in a.store.rows
  {
  }

  lemma HasCredentialOfLonger(creds: seq<Credential>, c: Credential, id: Bytes)
    requires c.id != id
    ensures HasCredential(creds + [c], id) <==> HasCredential(creds, id)
  {
    var longer := creds + [c];
    if i :| 0 <= i < |longer| && longer[i].id == id {
      assert creds[i].id == id;
    }
    if i :| 0 <= i < |creds| && creds[i].id == id {
      assert longer[i].id == id;
    }
  }

  lemma AgreeSees(creds: seq<Credential>, rows: Rows, uid: Option<u32>, id: Bytes)
    requires Agree(creds, rows, uid) && id in rows
    ensures HasCredential(creds, id) <==> Visible(rows[id], uid)
  {
    assert id in VisibleIds(rows, uid) <==> Visible(rows[id], uid);
  }

  // ---------------------------------------------------- deletion while pending

  /** What position `p` of a list names once credential `k` is deleted, if anything. */
  function Shifted(creds: seq<Credential>, k: nat, p: nat): Option<Credential>
    requires p < |creds|
  {
    if p < k then Some(creds[p]) else if p + 1 < |creds| then Some(creds[p + 1]) else None
  }

  /** How the second match is answered after credential `k`, called `id`, was deleted: as
      itself if it lies before `k`, else as its neighbour, whoever that belongs to, and
      with a panic if there is none. */
  ghost predicate AnsweredShifted(a: Authenticator, seen: seq<Credential>, rows: Rows, id: Bytes, k: nat, p: nat,
                                  hash: Bytes, env: Env, next: Response)
    requires p < |seen|
  {
    match Shifted(seen, k, p)
    case None => next == Panicked
    case Some(c) =>
      if a.Signable(c, env) && !env.storeFault && c.id in rows && c.id != id
      then next.Asserted? && next.assertion.id == c.id && next.assertion.rpId == c.rpId
           && next.assertion.clientDataHash == hash
      else next == Failed(OperationDenied)
  }

  /** The deletion succeeds. */
  ghost predicate DeletesAt(manage: ManagementRequest, pin: Option<StoredPin>, t: Option<Token>, env: Env,
                            creds: seq<Credential>, rows: Rows)
  {
    && Authenticator.Admits(Some(manage), pin, t, env) && NamedId(manage.params).Ok? && !env.storeFault
    && PositionOf(creds, NamedId(manage.params).value) < |creds| && NamedId(manage.params).value in rows
  }

  /** getAssertion, deleteCredential, getNextAssertion: with at least two matches, the last
      call is answered as `AnsweredShifted` says. */
  method AssertDeleteNext(a: Authenticator, get: GetAssertionRequest, manage: ManagementRequest, e0: Env, e1: Env, e2: Env)
    returns (first: Result<Response>, deleted: Result<Response>, next: Result<Response>, ghost seen: seq<Credential>)
    requires a.Valid() && a.pending == None && a.management == None
    requires a.clock <= e0.now <= e0.later <= e1.now <= e1.later <= e2.now <= e2.later
    requires e2.sessionFirst && Elapsed(e2.now, e0.later) <= CURSOR_LIFETIME
    requires manage.subCommand == Some(6)
    modifies a, a.store
    ensures a.Seen(seen, Some(get), old(a.token), old(a.credentials), old(a.store.rows), old(a.uid), e0)
    ensures var t := Authenticator.CheckedToken(old(a.token), Authenticator.GetCheck(Some(get)), e0);
            deleted.Ok? <==> DeletesAt(manage, old(a.clientPin), t, e1, seen, old(a.store.rows))
    ensures Authenticator.Reaches(Some(get), old(a.token), seen, e0) && deleted.Ok? ==>
              var indexes := MatchingIndexes(seen, get.rpId.value, get.allowList);
              |indexes| >= 2 ==>
                && indexes[1] < |seen| && NamedId(manage.params).Ok?
                && var id := NamedId(manage.params).value;
                   AnsweredShifted(a, seen, old(a.store.rows), id, PositionOf(seen, id), indexes[1],
                                   get.clientDataHash.value, e2, ToResponse(next))
  {
    hide Authenticator.Valid, Database.Sound, MatchingIndexes, Authenticator.Seen, Authenticator.CheckedToken, NamedId,
         AnsweredShifted, Authenticator.NextOutcome, Authenticator.Admits, Authenticator.Reaches,
         Authenticator.GetCheck, PositionOf;
    ghost var reached, indexes;
    first, seen, reached, indexes := First(a, get, e0);
    ghost var after, mid, pending := a.credentials, a.store.rows, a.pending;
    DeletesAlike(manage, a.clientPin, a.token, e1, seen, after, old(a.store.rows), mid);
    deleted := Delete(a, manage, e1);
    ghost var released := a.released;
    next := a.HandleGetNextAssertion(true, e2);
    if reached && deleted.Ok? && |indexes| >= 2 {
      NextAfterDelete(a, e2, a.uid, pending.value, seen, after, mid, NamedId(manage.params).value, released,
                      ToResponse(next), a.pending, a.credentials, a.store.rows, a.released);
      AnsweredAlike(a, seen, old(a.store.rows), mid, NamedId(manage.params).value, indexes[1], pending.value.clientDataHash,
                    e2, ToResponse(next));
    }
  }

  /** The first call, as far as it matters here. */
  method First(a: Authenticator, get: GetAssertionRequest, env: Env)
    returns (r: Result<Response>, ghost seen: seq<Credential>, ghost reached: bool, ghost indexes: seq<nat>)
    requires a.Valid() && a.pending == None && a.management == None && a.clock <= env.now <= env.later
    modifies a`credentials, a`pending, a`pendingIntact, a`token, a`tokenLog, a`clock, a`storeHealthy, a`released,
             a.store`rows
    ensures a.Valid() && a.clock == env.later && a.store.rows.Keys == old(a.store.rows).Keys
    ensures a.Seen(seen, Some(get), old(a.token), old(a.credentials), old(a.store.rows), a.uid, env)
    ensures a.token == Authenticator.CheckedToken(old(a.token), Authenticator.GetCheck(Some(get)), env)
    ensures SameIds(seen, a.credentials) && (reached <==> Authenticator.Reaches(Some(get), old(a.token), seen, env))
    ensures reached ==>
              && get.rpId.Some? && get.clientDataHash.Some?
              && indexes == MatchingIndexes(seen, get.rpId.value, get.allowList)
              && (|indexes| >= 2 ==>
                    && indexes[1] < |seen| && a.pending.Some? && a.pending.value.indexes != []
                    && a.pending.value.indexes[0] == indexes[1]
                    && a.pending.value.clientDataHash == get.clientDataHash.value && a.pending.value.uid == a.uid
                    && a.pending.value.createdAt == env.later)
  {
    hide Authenticator.Valid, CredentialStore.Valid, Database.Sound, MatchingIndexes, Authenticator.Seen,
         Authenticator.CheckEvents, Authenticator.CheckedToken, Authenticator.Verifies, DescriptorsOk, NextCount,
         Authenticator.PresentsNone, Authenticator.Signable, Authenticator.Loads;
    ghost var verified;
    r, seen, reached, verified := a.HandleGetAssertion(Some(get), env);
    indexes := [];
    if reached {
      indexes := MatchingIndexes(seen, get.rpId.value, get.allowList);
      MatchingInOrder(seen, get.rpId.value, get.allowList);
    }
  }

  /** The deletion, as far as it matters here. */
  method Delete(a: Authenticator, manage: ManagementRequest, env: Env) returns (r: Result<Response>)
    requires a.Valid() && a.clock <= env.now <= env.later && manage.subCommand == Some(6)
    modifies a`credentials, a`management, a`pendingIntact, a`token, a`tokenLog, a`clock, a`storeHealthy, a.store`rows
    ensures a.Valid() && a.clock == env.later
    ensures r.Ok? <==> DeletesAt(manage, a.clientPin, old(a.token), env, old(a.credentials), old(a.store.rows))
    ensures r.Ok? ==>
              var id := NamedId(manage.params).value;
              && a.credentials == Without(old(a.credentials), PositionOf(old(a.credentials), id))
              && a.store.rows == old(a.store.rows) - {id}
  {
    hide Authenticator.Valid, CredentialStore.Valid, Database.Sound, Authenticator.CheckEvents,
         Authenticator.CheckedToken,
         NamedId, Authenticator.UserUpdate, Authenticator.Enumeration, Canonical.ManagementAuthMessage,
         Authenticator.Admits,
         PositionOf;
    r := a.HandleManagement(Some(manage), env);
  }

  lemma DeletesAlike(manage: ManagementRequest, pin: Option<StoredPin>, t: Option<Token>, env: Env,
                     creds: seq<Credential>, creds': seq<Credential>, rows: Rows, rows': Rows)
    requires SameIds(creds, creds') && rows.Keys == rows'.Keys
    ensures DeletesAt(manage, pin, t, env, creds, rows) <==> DeletesAt(manage, pin, t, env, creds', rows')
    ensures NamedId(manage.params).Ok? ==>
              PositionOf(creds, NamedId(manage.params).value) == PositionOf(creds', NamedId(manage.params).value)
  {
    hide NamedId, Authenticator.Admits;
    if NamedId(manage.params).Ok? {
      SamePosition(creds, creds', NamedId(manage.params).value);
    }
  }

  lemma AnsweredAlike(a: Authenticator, seen: seq<Credential>, rows: Rows, rows': Rows, id: Bytes, p: nat, hash: Bytes,
                      env: Env, next: Response)
    requires p < |seen| && rows.Keys == rows'.Keys
    ensures AnsweredShifted(a, seen, rows, id, PositionOf(seen, id), p, hash, env, next)
            <==> AnsweredShifted(a, seen, rows', id, PositionOf(seen, id), p, hash, env, next)
  {
  }

  lemma NextAfterDelete(a: Authenticator, env: Env, uid: Option<u32>, p: PendingAssertion, seen: seq<Credential>,
                        after: seq<Credential>, rows: Rows, id: Bytes, released: seq<Release>, response: Response,
                        p': Option<PendingAssertion>, creds': seq<Credential>, rows': Rows, released': seq<Release>)
    requires SameIds(seen, after) && PositionOf(after, id) < |after| && p.indexes != [] && p.indexes[0] < |seen|
    requires Authenticator.InTime(p, uid, env)
    requires a.NextOutcome(true, env, uid, Some(p), Without(after, PositionOf(after, id)), rows - {id}, released, response,
                           p', creds', rows', released')
    ensures AnsweredShifted(a, seen, rows, id, PositionOf(seen, id), p.indexes[0], p.clientDataHash, env, response)
  {
    hide Authenticator.Signable, NextCount;
    SamePosition(seen, after, id);
    ShiftedAt(seen, after, PositionOf(after, id), p.indexes[0]);
    if Shifted(seen, PositionOf(after, id), p.indexes[0]).Some? {
      SignableByPolicy(a, seen, after, PositionOf(after, id), p.indexes[0], env);
    }
  }

  lemma SignableByPolicy(a: Authenticator, seen: seq<Credential>, after: seq<Credential>, k: nat, p: nat, env: Env)
    requires SameIds(seen, after) && k < |seen| && p < |seen| && Shifted(seen, k, p).Some?
    ensures p < |Without(after, k)|
            && a.Signable(Without(after, k)[p], env) == a.Signable(Shifted(seen, k, p).value, env)
  {
  }

  ghost predicate SameIds(creds: seq<Credential>, creds': seq<Credential>) {
    |creds| == |creds'| && forall i :: 0 <= i < |creds| ==>
      creds'[i] == creds[i].(signCount := creds'[i].signCount)
  }

  lemma {:induction false} SamePosition(creds: seq<Credential>, creds': seq<Credential>, id: Bytes)
    requires SameIds(creds, creds')
    ensures PositionOf(creds, id) == PositionOf(creds', id)
    decreases |creds|
  {
    if creds != [] {
      SamePosition(creds[1..], creds'[1..], id);
    }
  }

  lemma MatchingInOrder(creds: seq<Credential>, rpId: Bytes, allowList: Option<seq<Descriptor>>)
    ensures var s := MatchingIndexes(creds, rpId, allowList);
            |s| >= 2 ==> s[0] < s[1] < |creds|
  {
    MatchingIsExact(creds, rpId, allowList);
    hide MatchingIndexes;
    var s := MatchingIndexes(creds, rpId, allowList);
    if |s| >= 2 {
      assert s[1] in s;
    }
  }

  lemma ShiftedAt(creds: seq<Credential>, creds': seq<Credential>, k: nat, p: nat)
    requires SameIds(creds, creds') && k < |creds| && p < |creds|
    ensures |Without(creds', k)| == |creds| - 1
    ensures match Shifted(creds, k, p)
            case None => p == |Without(creds', k)|
            case Some(c) =>
              p < |Without(creds', k)| && Without(creds', k)[p].id == c.id && Without(creds', k)[p].rpId == c.rpId
  {
  }

  // --------------------------------------------------------------- concrete runs

  function Plain(id: Bytes, rpId: Bytes, owner: u32): StoredCredential {
    StoredCredential(id, rpId, true, Some(owner), [], None, None, StoredTpmKey([], [], [], [], None), None, None, 0, None)
  }

  /** Everything succeeds, at time 0, and no MAC key is readable. */
  function Smoothly(newId: Bytes): Env {
    Env(0, 0, true, true, true, true, true, true, true, false, false, false, false, (k: nat) => false, newId,
        StoredTpmKey([], [], [], [], None), StoredPcrPolicy([], [], None, None, None, 1), None, [], [])
  }

  function Zeros(n: nat): (s: Bytes)
    ensures |s| == n
  {
    if n == 0 then [] else Zeros(n - 1) + [0]
  }

  /** A daemon for user `uid` on a store with these credentials and a PIN. */
  method Start(list: seq<StoredCredential>, uid: u32) returns (a: Authenticator)
    requires DistinctIds(list)
    ensures fresh(a) && fresh(a.store) && a.Valid() && a.daemon && a.uid == Some(uid) && a.clock == 0
    ensures a.pending == None && a.management == None && a.token == None && a.clientPin.Some?
    ensures a.store.rows == TableOf(list, None) && a.usedIds == a.store.rows.Keys
    ensures a.storeHealthy && a.Shown(a.credentials, a.store.rows, Some(uid), Smoothly([]))
  {
    hide Authenticator.Valid, Authenticator.Shown, TableOf;
    var store := new CredentialStore([]);
    var saved := store.Save(list, false, false);
    var pinned := store.SavePin(StoredPin(Zeros(32), Zeros(32), 8), false);
    a := new Authenticator(store, (b: Bytes) => b, (salt: Bytes, hash: Bytes) => hash, true, Some(uid), Smoothly([]));
  }

  /** One user's credential in the store, and another user registers: the first user's row is
      gone. */
  method TwoUsers() returns (had: bool, lost: bool)
    ensures had && lost
  {
    hide Authenticator.Valid, Authenticator.Shown, Agree;
    var list := [Plain([1], [7], 1000)];
    TableLookup(list, None, [1]);
    var a := Start(list, 2000);
    had := [1] in a.store.rows;
    var request := MakeCredentialRequest(Some(Zeros(32)), Some(Some([7])), Some(UserEntity(Some([9]), None, None)),
                                         Some(true), true, true, true, false, None, PinAuth(None, None));
    TableLookup(list, None, [2]);
    assert list[0].id == [1];
    ghost var rows := a.store.rows;
    assert rows[[1]] == ToRow(list[0], None);
    assert !Visible(rows[[1]], Some(2000));
    assert [2] !in rows;
    var r := RegisterAndForget(a, Some(request), Smoothly([2]));
    lost := [1] !in a.store.rows;
  }

  /** A listing of saved credentials is the list that was saved, if it was in order. */
  lemma ListsSaved(list: seq<StoredCredential>, uid: u32)
    requires DistinctIds(list) && InOrder(list)
    requires forall i :: 0 <= i < |list| ==>
               list[i].userId == Some(uid) && list[i].integrityMac.None? && CurrentVersion(list[i])
    ensures var rows := TableOf(list, None); Lists(list, rows, VisibleIds(rows, Some(uid)), Some(uid))
  {
    var rows := TableOf(list, None);
    forall i | 0 <= i < |list|
      ensures list[i].id in rows && rows[list[i].id] == ToRow(list[i], None)
      ensures list[i] == FromRow(list[i].id, rows[list[i].id], Some(uid)) && list[i].id in VisibleIds(rows, Some(uid))
    {
      TableLookup(list, None, list[i].id);
      RowRoundTrip(list[i], None);
    }
    forall id | id in VisibleIds(rows, Some(uid))
      ensures HasId(list, id)
    {
      TableLookup(list, None, id);
    }
  }

  /** Whatever a load of these credentials shows is these credentials. */
  lemma ShownAre(a: Authenticator, creds: seq<Credential>, list: seq<StoredCredential>, uid: u32, env: Env)
    requires DistinctIds(list) && InOrder(list) && !env.keyReadable && !env.loadFault
    requires forall i :: 0 <= i < |list| ==>
               list[i].userId == Some(uid) && list[i].integrityMac.None? && CurrentVersion(list[i])
    requires a.Shown(creds, TableOf(list, None), Some(uid), env)
    ensures creds == FromStoredAll(list)
  {
    hide TableOf, Agree, MacAccepted;
    var rows := TableOf(list, None);
    ListsSaved(list, uid);
    hide Lists;
    var found :| Lists(found, rows, VisibleIds(rows, Some(uid)), Some(uid)) && creds == FromStoredAll(found);
    ListsUnique(found, list, rows, VisibleIds(rows, Some(uid)), Some(uid));
  }

  /** A request for an assertion for party [1], then the deletion of credential [1]. */
  const GET := GetAssertionRequest(Some([1]), Some(Zeros(32)), None, false, PinAuth(None, None))

  const DELETE := ManagementRequest(
    Some(6), Some([Cbor.Entry(Cbor.Integer(2), Cbor.Map([Cbor.Entry(ID, Cbor.ByteString([1]))]))]), PinAuth(None, None))

  lemma DeleteNames()
    ensures NamedId(DELETE.params) == Ok([1])
  {
    var inner := [Cbor.Entry(ID, Cbor.ByteString([1]))];
    assert MapBytes(inner, ID) == Some([1]);
    assert MapMap(DELETE.params.value, Cbor.Integer(2)) == Some(inner);
  }

  lemma {:induction false} AtLeastItsIndex(s: seq<nat>, i: nat)
    requires StrictlyIncreasing(s) && i < |s|
    ensures s[i] >= i
  {
    if i > 0 {
      AtLeastItsIndex(s, i - 1);
    }
  }

  /** The matches for party [1] among credentials of which exactly the first two are its own. */
  lemma FirstTwoMatch(creds: seq<Credential>)
    requires |creds| >= 2 && creds[0].rpId == creds[1].rpId == [1] && creds[0].discoverable && creds[1].discoverable
    requires forall i :: 2 <= i < |creds| ==> creds[i].rpId != [1]
    ensures MatchingIndexes(creds, [1], None) == [0, 1]
  {
    MatchingIsExact(creds, [1], None);
    hide MatchingIndexes;
    var s := MatchingIndexes(creds, [1], None);
    assert 0 in s && 1 in s;
    forall i | 0 <= i < |s|
      ensures s[i] == 0 || s[i] == 1
    {
      assert s[i] in s;
    }
    if s != [] {
      AtLeastItsIndex(s, |s| - 1);
    }
    var i :| 0 <= i < |s| && s[i] == 0;
    var j :| 0 <= j < |s| && s[j] == 1;
    assert |s| == 2 && s[0] < s[1];
  }

  /** Runs the three commands on a store with these credentials, the first two of party [1]. */
  method RunOn(list: seq<StoredCredential>) returns (next: Result<Response>)
    requires |list| >= 2 && DistinctIds(list) && InOrder(list)
    requires forall i :: 0 <= i < |list| ==> list[i] == Plain(list[i].id, list[i].rpId, 1000)
    requires list[0].id == [1] && list[0].rpId == list[1].rpId == [1]
    requires forall i :: 2 <= i < |list| ==> list[i].rpId != [1]
    ensures if |list| == 2 then next == Ok(Panicked)
            else next.Ok? && next.value.Asserted? && next.value.assertion.id == list[2].id
                 && next.value.assertion.rpId == list[2].rpId && next.value.assertion.clientDataHash == Zeros(32)
  {
    hide Authenticator.Valid, Authenticator.Shown, TableOf, MatchingIndexes, NamedId, Authenticator.Seen, PositionOf,
         Canonical.ManagementAuthMessage;
    var a := Start(list, 1000);
    ghost var creds, rows := a.credentials, a.store.rows;
    var first, deleted;
    ghost var seen;
    first, deleted, next, seen := AssertDeleteNext(a, GET, DELETE, Smoothly([]), Smoothly([]), Smoothly([]));
    SeenIsShown(a, seen, creds, rows);
    ShownAre(a, seen, list, 1000, Smoothly([]));
    FirstTwoMatch(seen);
    DeleteNames();
    FirstPosition(seen, [1]);
    forall i | 0 <= i < |list|
      ensures list[i].id in rows
    {
      TableLookup(list, None, list[i].id);
    }
  }

  lemma FirstPosition(creds: seq<Credential>, id: Bytes)
    requires creds != [] && IsNamed(creds[0], id)
    ensures PositionOf(creds, id) == 0
  {
  }

  lemma SeenIsShown(a: Authenticator, seen: seq<Credential>, creds: seq<Credential>, rows: Rows)
    requires a.daemon && a.Seen(seen, Some(GET), None, creds, rows, Some(1000), Smoothly([]))
    ensures a.Shown(seen, rows, Some(1000), Smoothly([]))
  {
    hide Authenticator.Shown;
    assert Authenticator.Looks(Some(GET), None, Smoothly([]));
  }

  /** A third credential of another party [2] is asserted in answer to a request for [1]. */
  method Misdirected() returns (rpId: Bytes)
    ensures rpId == [2] && GET.rpId == Some([1])
  {
    var list := [Plain([1], [1], 1000), Plain([2], [1], 1000), Plain([3], [2], 1000)];
    assert Less([1], [2]) && InOrder(list);
    var next := RunOn(list);
    rpId := next.value.assertion.rpId;
  }

  /** Without a third credential the call panics. */
  method Panics() returns (r: Result<Response>)
    ensures r == Ok(Panicked)
  {
    var list := [Plain([1], [1], 1000), Plain([2], [1], 1000)];
    assert Less([1], [2]) && InOrder(list);
    r := RunOn(list);
  }
}
