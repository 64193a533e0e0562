/**
 The operations on the credential store. Each runs as one transaction: it either
 takes full effect or, on a fault, none. A parameter `fault` stands for any
 failure of the database itself.
 */
module Database {
  import opened Bytes
  import opened Store

  // ------------------------------------------------------ listings in order

  /** The order of a load: by relying party, then by credential id. */
  predicate Before(a: StoredCredential, b: StoredCredential) {
    Less(a.rpId, b.rpId) || (a.rpId == b.rpId && Less(a.id, b.id))
  }

  ghost predicate InOrder(list: seq<StoredCredential>) {
    forall i, j :: 0 <= i < j < |list| ==> Before(list[i], list[j])
  }

  ghost predicate HasId(list: seq<StoredCredential>, id: Bytes) {
    exists i :: 0 <= i < |list| && list[i].id == id
  }

  /** `list` shows exactly the rows of `ids`, each once, in order. */
  ghost predicate Lists(list: seq<StoredCredential>, rows: Rows, ids: set<Bytes>, uid: Option<u32>) {
    && InOrder(list)
    && (forall i :: 0 <= i < |list| ==>
          list[i].id in ids && list[i].id in rows && list[i] == FromRow(list[i].id, rows[list[i].id], uid))
    && (forall id :: id in ids ==> HasId(list, id))
  }

  function VisibleIds(rows: Rows, uid: Option<u32>): set<Bytes> {
    set id | id in rows && Visible(rows[id], uid)
  }

  /** What a reader without a uid sees is everything; one with a uid sees the rows that it
      owns and the ownerless ones, which it is given; all sorted by relying party and id. */
  ghost predicate ShowsOwnRows(list: seq<StoredCredential>, rows: Rows, uid: Option<u32>) {
    && (forall id :: HasId(list, id) <==>
                       id in rows && (uid.None? || rows[id].meta.userId.None? || rows[id].meta.userId == uid))
    && (forall i :: 0 <= i < |list| ==>
          && list[i].id in rows
          && list[i].userId == if rows[list[i].id].meta.userId.Some? then rows[list[i].id].meta.userId else uid)
    && (forall i, j :: 0 <= i < j < |list| ==>
          Less(list[i].rpId, list[j].rpId) || (list[i].rpId == list[j].rpId && Less(list[i].id, list[j].id)))
  }

  lemma ListsOwnRows(list: seq<StoredCredential>, rows: Rows, uid: Option<u32>)
    requires Lists(list, rows, VisibleIds(rows, uid), uid)
    ensures ShowsOwnRows(list, rows, uid)
  {
    hide Less;
    forall id
      ensures HasId(list, id) <==>
                id in rows && (uid.None? || rows[id].meta.userId.None? || rows[id].meta.userId == uid)
    {
      assert id in VisibleIds(rows, uid) <==> id in rows && Visible(rows[id], uid);
      if HasId(list, id) {
        var i :| 0 <= i < |list| && list[i].id == id;
      }
    }
    forall i, j | 0 <= i < j < |list|
      ensures Less(list[i].rpId, list[j].rpId) || (list[i].rpId == list[j].rpId && Less(list[i].id, list[j].id))
    {
      assert Before(list[i], list[j]);
    }
  }

  lemma BeforeTransitive(a: StoredCredential, b: StoredCredential, c: StoredCredential)
    requires Before(a, b) && Before(b, c)
    ensures Before(a, c)
  {
    if Less(a.rpId, b.rpId) && Less(b.rpId, c.rpId) {
      LessTransitive(a.rpId, b.rpId, c.rpId);
    } else if a.rpId == b.rpId && b.rpId == c.rpId {
      LessTransitive(a.id, b.id, c.id);
    }
  }

  lemma BeforeIrreflexive(a: StoredCredential)
    ensures !Before(a, a)
  {
    LessIrreflexive(a.rpId);
    LessIrreflexive(a.id);
  }

  lemma BeforeTotal(a: StoredCredential, b: StoredCredential)
    ensures Before(a, b) || Before(b, a) || a.id == b.id
  {
    LessTotal(a.rpId, b.rpId);
    LessTotal(a.id, b.id);
  }

  /** Inserts a credential at its place in an ordered list. */
  method InsertInOrder(list: seq<StoredCredential>, c: StoredCredential) returns (r: seq<StoredCredential>)
    requires InOrder(list) && !HasId(list, c.id)
    ensures InOrder(r) && |r| == |list| + 1
    ensures forall x :: x in r <==> x == c || x in list
  {
    hide Before;
    var i := 0;
    while i < |list| && Before(list[i], c)
      invariant 0 <= i <= |list|
      invariant forall k :: 0 <= k < i ==> Before(list[k], c)
    {
      i := i + 1;
    }
    r := list[..i] + [c] + list[i..];
    forall k | i <= k < |list|
      ensures Before(c, list[k])
    {
      BeforeTotal(list[i], c);
      assert Before(c, list[i]);
      if i < k {
        BeforeTransitive(c, list[i], list[k]);
      }
    }
    forall x
      ensures x in r <==> x == c || x in list
    {
      assert list == list[..i] + list[i..];
    }
  }

  /** The list of a load is determined by the rows: two lists of the same rows are equal. */
  lemma {:induction false} ListsUnique(a: seq<StoredCredential>, b: seq<StoredCredential>, rows: Rows, ids: set<Bytes>,
                                       uid: Option<u32>)
    requires Lists(a, rows, ids, uid) && Lists(b, rows, ids, uid)
    ensures a == b
    decreases |a|
  {
    hide FromRow, Before;
    assert b != [] ==> HasId(a, b[0].id);
    if a != [] {
      assert HasId(b, a[0].id);
      assert a[0].id in ids && b != [];
      FirstsAgree(a, b, rows, ids, uid);
      var first := a[0].id;
      TailLists(a, rows, ids, uid);
      TailLists(b, rows, ids, uid);
      ListsUnique(a[1..], b[1..], rows, ids - {first}, uid);
      assert a == [a[0]] + a[1..] && b == [b[0]] + b[1..];
    }
  }

  lemma FirstsAgree(a: seq<StoredCredential>, b: seq<StoredCredential>, rows: Rows, ids: set<Bytes>, uid: Option<u32>)
    requires Lists(a, rows, ids, uid) && Lists(b, rows, ids, uid) && a != [] && b != []
    ensures a[0] == b[0]
  {
    hide FromRow, Before;
    assert HasId(b, a[0].id) && HasId(a, b[0].id);
    var j :| 0 <= j < |b| && b[j].id == a[0].id;
    var i :| 0 <= i < |a| && a[i].id == b[0].id;
    assert b[j] == a[0] && a[i] == b[0];
    if i != 0 && j != 0 {
      assert Before(a[0], a[i]) && Before(b[0], b[j]);
      BeforeTransitive(a[0], b[0], a[0]);
      BeforeIrreflexive(a[0]);
    }
  }

  lemma TailLists(a: seq<StoredCredential>, rows: Rows, ids: set<Bytes>, uid: Option<u32>)
    requires Lists(a, rows, ids, uid) && a != []
    ensures Lists(a[1..], rows, ids - {a[0].id}, uid)
  {
    hide FromRow, Before;
    var t := a[1..];
    forall i | 0 <= i < |t|
      ensures t[i].id in ids - {a[0].id}
    {
      if t[i].id == a[0].id {
        assert Before(a[0], a[i + 1]) && a[i + 1] == a[0];
        BeforeIrreflexive(a[0]);
      }
    }
    forall id | id in ids - {a[0].id}
      ensures HasId(t, id)
    {
      assert HasId(a, id);
      var i :| 0 <= i < |a| && a[i].id == id;
      assert t[i - 1].id == id;
    }
  }

  // ----------------------------------------------------------- integrity

  predicate MacAccepted(c: StoredCredential, hmacKey: Bytes) {
    c.integrityMac.None? || c.integrityMac.value == Mac(hmacKey, MacMessage(c))
    || c.integrityMac.value == Mac(hmacKey, LegacyMacMessage(c))
  }

  /** Every row passes its integrity check for its own owner: it has no MAC, or the current
      or the legacy MAC of its own fields. */
  ghost predicate MacsValid(rows: Rows, hmacKey: Bytes) {
    forall id :: id in rows ==> MacAccepted(FromRow(id, rows[id], None), hmacKey)
  }

  /** ... and has an owner. */
  ghost predicate Sound(rows: Rows, hmacKey: Bytes) {
    MacsValid(rows, hmacKey) && forall id :: id in rows ==> rows[id].meta.userId.Some?
  }

  /** A load for this uid succeeds: no fault, and no visible row's MAC is refused. */
  ghost predicate CanLoad(rows: Rows, uid: Option<u32>, hmacKey: Bytes, keyReadable: bool, fault: bool) {
    !fault && (keyReadable ==>
      forall id :: id in VisibleIds(rows, uid) ==> MacAccepted(FromRow(id, rows[id], uid), hmacKey))
  }

  /** A table with owners and valid MACs can be loaded by everyone. */
  lemma SoundLoads(rows: Rows, uid: Option<u32>, hmacKey: Bytes, keyReadable: bool)
    requires Sound(rows, hmacKey)
    ensures CanLoad(rows, uid, hmacKey, keyReadable, false)
  {
    hide MacAccepted;
    forall id | id in VisibleIds(rows, uid)
      ensures MacAccepted(FromRow(id, rows[id], uid), hmacKey)
    {
      assert FromRow(id, rows[id], uid) == FromRow(id, rows[id], None);
    }
  }

  /** The rows agree on everything but count, policy and key material. */
  predicate SameIdentity(row: Row, next: Row) {
    next.meta == row.meta.(signCount := next.meta.signCount)
  }

  lemma SameIdentitySameMac(id: Bytes, row: Row, next: Row, uid: Option<u32>, hmacKey: Bytes)
    requires SameIdentity(row, next)
    ensures MacAccepted(FromRow(id, row, uid), hmacKey) <==> MacAccepted(FromRow(id, next, uid), hmacKey)
  {
    hide Framed, ToBigEndian;
    var c, d := FromRow(id, row, uid), FromRow(id, next, uid);
    assert MacTail(c) == MacTail(d);
  }

  /** Tables whose common rows agree on identity are loaded alike. */
  lemma SameIdentitySound(rows: Rows, rows': Rows, hmacKey: Bytes)
    requires forall id :: id in rows' ==> id in rows && SameIdentity(rows[id], rows'[id])
    ensures MacsValid(rows, hmacKey) ==> MacsValid(rows', hmacKey)
    ensures Sound(rows, hmacKey) ==> Sound(rows', hmacKey)
  {
    hide MacAccepted, FromRow;
    if MacsValid(rows, hmacKey) {
      forall id | id in rows'
        ensures MacAccepted(FromRow(id, rows'[id], None), hmacKey)
      {
        SameIdentitySameMac(id, rows[id], rows'[id], None, hmacKey);
      }
    }
  }

  lemma SameIdentityCanLoad(rows: Rows, rows': Rows, uid: Option<u32>, hmacKey: Bytes, keyReadable: bool, fault: bool)
    requires rows.Keys == rows'.Keys && forall id :: id in rows ==> SameIdentity(rows[id], rows'[id])
    ensures CanLoad(rows, uid, hmacKey, keyReadable, fault) <==> CanLoad(rows', uid, hmacKey, keyReadable, fault)
  {
    hide MacAccepted, FromRow;
    forall id | id in rows
      ensures id in VisibleIds(rows, uid) <==> id in VisibleIds(rows', uid)
      ensures MacAccepted(FromRow(id, rows[id], uid), hmacKey) <==> MacAccepted(FromRow(id, rows'[id], uid), hmacKey)
    {
      SameIdentitySameMac(id, rows[id], rows'[id], uid, hmacKey);
    }
  }

  /** A row with an owner, or asked for without a uid, or by uid 0: its MAC is computed
      with the owner it was written with. */
  predicate KeepsOwner(row: Row, uid: Option<u32>) {
    row.meta.integrityMac.None? || row.meta.userId.Some? || OwnerOrZero(uid) == 0
  }

  /** An intact row passes the integrity check of a load exactly when its owner is kept: an
      ownerless row with a MAC is rejected for every other uid. */
  lemma MacAcceptedExactly(id: Bytes, row: Row, uid: Option<u32>, hmacKey: Bytes)
    requires Sized(FromRow(id, row, None)) && MacAccepted(FromRow(id, row, None), hmacKey)
    ensures MacAccepted(FromRow(id, row, uid), hmacKey) <==> KeepsOwner(row, uid)
  {
    var c, d := FromRow(id, row, None), FromRow(id, row, uid);
    MacCoversExactly(c, d);
    LegacyMacCoversExactly(c, d);
    hide Framed, ToBigEndian;
    assert |MacTail(c)| == |MacTail(d)|;
    assert |LegacyMacMessage(d)| + 1 == |MacMessage(c)| && |LegacyMacMessage(c)| + 1 == |MacMessage(d)|;
  }

  /** The fields that a MAC binds agree; an absent owner is 0 and an absent name empty. */
  predicate SameBound(c: StoredCredential, d: StoredCredential) {
    && c.id == d.id && c.rpId == d.rpId && c.userHandle == d.userHandle
    && (c.userId == d.userId || {c.userId, d.userId} == {None, Some(0)})
    && (c.userName == d.userName || {c.userName, d.userName} == {None, Some([])})
    && (c.userDisplayName == d.userDisplayName || {c.userDisplayName, d.userDisplayName} == {None, Some([])})
  }

  /** A credential whose data was replaced, under the current or the legacy MAC of what was
      there: it is accepted exactly if every bound field is the same, provided the length of
      the message is. A MAC under another key is never accepted, an absent one always. */
  lemma TamperingExactly(c: StoredCredential, d: StoredCredential, hmacKey: Bytes, otherKey: Bytes)
    requires Sized(c) && Sized(d) && |MacMessage(c)| == |MacMessage(d)|
    ensures MacAccepted(d.(integrityMac := Some(Mac(hmacKey, MacMessage(c)))), hmacKey)
            <==> SameBound(c, d) && c.discoverable == d.discoverable
    ensures MacAccepted(d.(integrityMac := Some(Mac(hmacKey, LegacyMacMessage(c)))), hmacKey) <==> SameBound(c, d)
    ensures otherKey != hmacKey ==> !MacAccepted(d.(integrityMac := Some(Mac(otherKey, MacMessage(c)))), hmacKey)
    ensures MacAccepted(d.(integrityMac := None), hmacKey)
  {
    MacCoversExactly(c, d);
    LegacyMacCoversExactly(c, d);
    BoundExactly(c, d);
    hide Framed, ToBigEndian, SameBound;
    assert |LegacyMacMessage(d)| + 1 == |MacMessage(d)| && |LegacyMacMessage(c)| + 1 == |MacMessage(c)|;
  }

  lemma BoundExactly(c: StoredCredential, d: StoredCredential)
    ensures SameBound(c, d) <==> Covered(c.(discoverable := d.discoverable)) == Covered(d)
  {
    PairExactly(c.userName, d.userName);
    PairExactly(c.userDisplayName, d.userDisplayName);
    if {c.userId, d.userId} == {None, Some(0)} {
      assert c.userId in {None, Some(0)} && d.userId in {None, Some(0)};
    }
    if OwnerOrZero(c.userId) == OwnerOrZero(d.userId) && c.userId != d.userId {
      assert {c.userId, d.userId} == {None, Some(0)};
    }
  }

  lemma PairExactly(x: Option<Bytes>, y: Option<Bytes>)
    ensures TextOrEmpty(x) == TextOrEmpty(y) <==> x == y || {x, y} == {None, Some([])}
  {
    if {x, y} == {None, Some([])} {
      assert x in {None, Some([])} && y in {None, Some([])};
    }
    if TextOrEmpty(x) == TextOrEmpty(y) && x != y {
      assert {x, y} == {None, Some([])};
    }
  }

  class CredentialStore {
    const hmacKey: Bytes
    var rows: Rows
    var pin: Option<StoredPin>
    var pinMac: Option<Mac>

    constructor (hmacKey: Bytes)
      ensures Valid() && rows == map[] && pin == None && this.hmacKey == hmacKey
    {
      this.hmacKey, rows, pin, pinMac := hmacKey, map[], None, None;
    }

    /** The PIN state was written by `SavePin`. */
    ghost predicate Valid()
      reads this`pin, this`pinMac
    {
      && (pin.Some? ==> PinStorable(pin.value))
      && pinMac == (if pin.Some? then Some(Mac(hmacKey, PinMacMessage(pin.value))) else None)
    }

    /** The stored PIN state has no MAC or its own. */
    predicate PinIntact()
      reads this`pin, this`pinMac
    {
      pin.Some? && pinMac.Some? ==> pinMac.value == Mac(hmacKey, PinMacMessage(pin.value))
    }

    lemma ValidPin()
      requires Valid()
      ensures PinIntact() && (pin.Some? ==> PinStorable(pin.value))
    {
    }

    /** Replaces the whole table. Fails on a fault and on a repeated id. */
    method Save(credentials: seq<StoredCredential>, keyReadable: bool, fault: bool) returns (ok: bool)
      modifies this`rows
      ensures ok <==> !fault && DistinctIds(credentials)
      ensures rows == if ok then TableOf(credentials, if keyReadable then Some(hmacKey) else None) else old(rows)
      ensures ok ==> MacsValid(rows, hmacKey)
    {
      hide ToRow, FromRow, MacMessage;
      var key := if keyReadable then Some(hmacKey) else None;
      var table: Rows := map[];
      for i := 0 to |credentials|
        invariant DistinctIds(credentials[..i])
        invariant table == TableOf(credentials[..i], key)
        invariant forall id :: id in table <==> exists k :: 0 <= k < i && credentials[k].id == id
      {
        assert credentials[..i + 1][..i] == credentials[..i];
        if credentials[i].id in table {
          return false;
        }
        table := table[credentials[i].id := ToRow(credentials[i], key)];
      }
      assert credentials[..|credentials|] == credentials;
      if fault {
        return false;
      }
      TableMacsValid(credentials, key, hmacKey);
      rows := table;
      ok := true;
    }

    /** The credentials visible to a uid, in order; fails on a fault and when a row does
        not pass its integrity check. */
    method Load(uid: Option<u32>, keyReadable: bool, fault: bool) returns (r: Option<seq<StoredCredential>>)
      ensures r.Some? ==> Lists(r.value, rows, VisibleIds(rows, uid), uid)
      ensures r.Some? ==> ShowsOwnRows(r.value, rows, uid)
      ensures r.Some? <==> CanLoad(rows, uid, hmacKey, keyReadable, fault)
    {
      hide FromRow, MacAccepted, Before, Lists, HasId, InOrder;
      if fault {
        return None;
      }
      var remaining := VisibleIds(rows, uid);
      var list := [];
      ghost var shown := {};
      NothingListed(rows, uid);
      while remaining != {}
        invariant shown !! remaining && shown + remaining == VisibleIds(rows, uid)
        invariant Lists(list, rows, shown, uid)
        invariant keyReadable ==> forall id :: id in shown ==> MacAccepted(FromRow(id, rows[id], uid), hmacKey)
        decreases |remaining|
      {
        var id :| id in remaining;
        var c := FromRow(id, rows[id], uid);
        if keyReadable && !MacAccepted(c, hmacKey) {
          return None;
        }
        list := InsertListed(list, rows, shown, uid, id);
        shown := shown + {id};
        remaining := remaining - {id};
      }
      assert shown == VisibleIds(rows, uid);
      ListsOwnRows(list, rows, uid);
      r := Some(list);
    }

    method UpdateSignCount(id: Bytes, signCount: u32, fault: bool) returns (ok: bool)
      modifies this`rows
      ensures ok <==> !fault && id in old(rows)
      ensures rows == if ok then old(rows)[id := old(rows)[id].(meta := old(rows)[id].meta.(signCount := signCount))]
                      else old(rows)
    {
      if fault || id !in rows {
        return false;
      }
      rows := rows[id := rows[id].(meta := rows[id].meta.(signCount := signCount))];
      ok := true;
    }

    /** Writes the policy columns of the primary keyslot, except its version. */
    method UpdatePolicy(id: Bytes, policy: StoredPcrPolicy, fault: bool) returns (ok: bool)
      modifies this`rows
      ensures ok <==> !fault && id in old(rows)
      ensures rows == if ok then old(rows)[id := WithPolicy(old(rows)[id], policy)] else old(rows)
    {
      if fault || id !in rows {
        return false;
      }
      rows := rows[id := WithPolicy(rows[id], policy)];
      ok := true;
    }

    /** Replaces private blob, auth value and passphrase material of the recovery slot. */
    method UpdateRecovery(id: Bytes, private: Bytes, salt: Bytes, hash: Bytes, kdf: RecoveryKdf, fault: bool)
      returns (ok: bool)
      modifies this`rows
      ensures ok <==> !fault && id in old(rows) && old(rows)[id].recovery.Some?
      ensures rows == if ok then old(rows)[id := WithRecovery(old(rows)[id], private, salt, hash, kdf)] else old(rows)
    {
      if fault || id !in rows || rows[id].recovery.None? {
        return false;
      }
      rows := rows[id := WithRecovery(rows[id], private, salt, hash, kdf)];
      ok := true;
    }

    /** Deletes a credential with its keyslots and tokens. */
    method Delete(id: Bytes, fault: bool) returns (ok: bool)
      modifies this`rows
      ensures ok <==> !fault && id in old(rows)
      ensures rows == if ok then old(rows) - {id} else old(rows)
    {
      if fault || id !in rows {
        return false;
      }
      rows := rows - {id};
      ok := true;
    }

    method SavePin(state: StoredPin, fault: bool) returns (ok: bool)
      modifies this`pin, this`pinMac
      ensures ok <==> !fault && PinStorable(state)
      ensures if ok then pin == Some(state) && Valid() else pin == old(pin) && pinMac == old(pinMac)
      ensures old(Valid()) ==> Valid()
    {
      if |state.salt| != 32 || |state.verifier| != 32 || state.retries > 8 || fault {
        return false;
      }
      pin, pinMac := Some(state), Some(Mac(hmacKey, PinMacMessage(state)));
      ok := true;
    }

    /** The stored PIN state, if its MAC, where it has one, verifies. */
    method LoadPin(fault: bool) returns (ok: bool, state: Option<StoredPin>)
      ensures ok <==> !fault && PinIntact()
      ensures state == if ok then pin else None
    {
      if fault {
        return false, None;
      }
      if pin.Some? && pinMac.Some? && pinMac.value != Mac(hmacKey, PinMacMessage(pin.value)) {
        return false, None;
      }
      return true, pin;
    }

    method DeletePin(fault: bool) returns (ok: bool)
      modifies this`pin, this`pinMac
      ensures ok <==> !fault
      ensures if ok then pin == None && Valid() else pin == old(pin) && pinMac == old(pinMac)
      ensures old(Valid()) ==> Valid()
    {
      ok := !fault;
      if ok {
        pin, pinMac := None, None;
      }
    }
  }

  // ------------------------------------------------- what the updates write

  function WithPolicy(row: Row, p: StoredPcrPolicy): Row {
    row.(primary := row.primary.(selection := Some(p.selection), digest := Some(p.digest), policyRef := p.policyRef,
                                 authorityName := p.authorityName, authoritySignature := p.authoritySignature))
  }

  function WithRecovery(row: Row, private: Bytes, salt: Bytes, hash: Bytes, kdf: RecoveryKdf): Row
    requires row.recovery.Some?
  {
    var r := row.recovery.value;
    row.(recovery := Some(r.(tpmKey := KeyBlob(private, r.tpmKey.public, Some(hash)), kdf := kdf, salt := salt,
                             hash := hash)))
  }

  /** What a reader finds after a policy write: exactly the written package, in an otherwise
      unchanged credential; the version column is not written. */
  lemma PolicyReadsBack(id: Bytes, row: Row, p: StoredPcrPolicy, uid: Option<u32>)
    ensures FromRow(id, WithPolicy(row, p), uid)
         == FromRow(id, row, uid).(policy := Some(p.(policyVersion := row.primary.policyVersion)))
  {
  }

  /** What a reader finds after a recovery write: the new private blob, auth value, salt, hash
      and KDF, in an otherwise unchanged slot of an otherwise unchanged credential. */
  lemma RecoveryReadsBack(id: Bytes, row: Row, private: Bytes, salt: Bytes, hash: Bytes, kdf: RecoveryKdf,
                          uid: Option<u32>)
    requires row.recovery.Some?
    ensures var c := FromRow(id, row, uid);
            && c.recovery.Some?
            && FromRow(id, WithRecovery(row, private, salt, hash, kdf), uid)
               == c.(recovery := Some(c.recovery.value.(
                       passphraseSalt := salt, passphraseHash := hash, kdf := kdf,
                       key := c.recovery.value.key.(private := private, authValue := Some(hash)))))
  {
  }

  ghost predicate DistinctIds(credentials: seq<StoredCredential>) {
    forall i, j :: 0 <= i < j < |credentials| ==> credentials[i].id != credentials[j].id
  }

  function TableOf(credentials: seq<StoredCredential>, key: Option<Bytes>): Rows {
    if credentials == [] then map[]
    else
      var n := |credentials| - 1;
      TableOf(credentials[..n], key)[credentials[n].id := ToRow(credentials[n], key)]
  }

  lemma {:induction false} TableLookup(credentials: seq<StoredCredential>, key: Option<Bytes>, id: Bytes)
    requires DistinctIds(credentials)
    ensures id in TableOf(credentials, key) <==> exists i :: 0 <= i < |credentials| && credentials[i].id == id
    ensures forall i :: 0 <= i < |credentials| && credentials[i].id == id ==>
              TableOf(credentials, key)[id] == ToRow(credentials[i], key)
  {
    hide ToRow;
    if credentials != [] {
      var n := |credentials| - 1;
      TableLookup(credentials[..n], key, id);
      if id in TableOf(credentials[..n], key) {
        var i :| 0 <= i < |credentials[..n]| && credentials[..n][i].id == id;
        assert credentials[i].id == id;
      }
    }
  }

  lemma TableMacsValid(credentials: seq<StoredCredential>, key: Option<Bytes>, hmacKey: Bytes)
    requires DistinctIds(credentials) && (key.Some? ==> key.value == hmacKey)
    ensures MacsValid(TableOf(credentials, key), hmacKey)
  {
    var table := TableOf(credentials, key);
    forall id | id in table
      ensures MacAccepted(FromRow(id, table[id], None), hmacKey)
    {
      TableLookup(credentials, key, id);
      var i :| 0 <= i < |credentials| && credentials[i].id == id;
      assert table[id] == ToRow(credentials[i], key);
      RowMac(credentials[i], key);
    }
  }

  /** A table written from owned credentials is sound. */
  lemma TableSound(credentials: seq<StoredCredential>, key: Option<Bytes>, hmacKey: Bytes)
    requires DistinctIds(credentials) && (key.Some? ==> key.value == hmacKey)
    requires forall i :: 0 <= i < |credentials| ==> credentials[i].userId.Some?
    ensures Sound(TableOf(credentials, key), hmacKey)
  {
    TableMacsValid(credentials, key, hmacKey);
    hide MacAccepted, MacMessage;
    var table := TableOf(credentials, key);
    forall id | id in table
      ensures table[id].meta.userId.Some?
    {
      TableLookup(credentials, key, id);
      var i :| 0 <= i < |credentials| && credentials[i].id == id;
    }
  }

  /** The MAC of the row that comes back is the MAC of the credential that went in. */
  lemma RowMac(c: StoredCredential, key: Option<Bytes>)
    ensures MacMessage(FromRow(c.id, ToRow(c, key), None)) == MacMessage(c)
  {
    hide Framed, ToBigEndian;
  }

  lemma FromRowId(id: Bytes, row: Row, uid: Option<u32>)
    ensures FromRow(id, row, uid).id == id
  {
  }

  lemma NothingListed(rows: Rows, uid: Option<u32>)
    ensures Lists([], rows, {}, uid)
  {
  }

  /** Adds one more row to a listing. */
  method InsertListed(list: seq<StoredCredential>, rows: Rows, ghost ids: set<Bytes>, uid: Option<u32>, id: Bytes)
    returns (r: seq<StoredCredential>)
    requires Lists(list, rows, ids, uid) && id in rows && id !in ids
    ensures Lists(r, rows, ids + {id}, uid)
  {
    hide FromRow, Before, InOrder;
    FromRowId(id, rows[id], uid);
    r := InsertInOrder(list, FromRow(id, rows[id], uid));
    ListsInserted(list, r, rows, ids, uid, id);
  }

  lemma ListsInserted(before: seq<StoredCredential>, list: seq<StoredCredential>, rows: Rows, ids: set<Bytes>,
                      uid: Option<u32>, id: Bytes)
    requires Lists(before, rows, ids, uid) && InOrder(list) && id in rows && id !in ids
    requires FromRow(id, rows[id], uid).id == id
    requires forall x :: x in list <==> x == FromRow(id, rows[id], uid) || x in before
    ensures Lists(list, rows, ids + {id}, uid)
  {
    hide FromRow, Before;
    forall i | 0 <= i < |list|
      ensures list[i].id in ids + {id} && list[i].id in rows && list[i] == FromRow(list[i].id, rows[list[i].id], uid)
    {
      assert list[i] in list;
      if list[i] in before {
        var k :| 0 <= k < |before| && before[k] == list[i];
      }
    }
    forall x | x in ids + {id}
      ensures HasId(list, x)
    {
      if x == id {
        MemberHasId(list, FromRow(id, rows[id], uid));
      } else {
        assert HasId(before, x);
        var k :| 0 <= k < |before| && before[k].id == x;
        assert before[k] in before;
        MemberHasId(list, before[k]);
      }
    }
  }

  lemma MemberHasId(list: seq<StoredCredential>, c: StoredCredential)
    requires c in list
    ensures HasId(list, c.id)
  {
  }

  // ------------------------------------------------------------ round trip

  predicate CurrentVersion(c: StoredCredential) {
    c.policy.Some? ==> c.policy.value.policyVersion == 1
  }

  /** A saved credential reads back as itself with its MAC filled in. */
  lemma RowRoundTrip(c: StoredCredential, key: Option<Bytes>)
    requires CurrentVersion(c)
    ensures FromRow(c.id, ToRow(c, key), None)
         == c.(integrityMac := if key.Some? then Some(Mac(key.value, MacMessage(c))) else None)
  {
    hide MacMessage;
  }

  function Stamped(c: StoredCredential, key: Option<Bytes>): StoredCredential {
    c.(integrityMac := if key.Some? then Some(Mac(key.value, MacMessage(c))) else None)
  }

  ghost predicate ComesFrom(c: StoredCredential, credentials: seq<StoredCredential>, key: Option<Bytes>) {
    exists i :: 0 <= i < |credentials| && c == Stamped(credentials[i], key)
  }

  /** Loading everything after a save gives back exactly the saved credentials, each
      once, ordered by relying party and id. */
  lemma LoadAfterSave(credentials: seq<StoredCredential>, key: Option<Bytes>, list: seq<StoredCredential>)
    requires DistinctIds(credentials)
    requires forall i :: 0 <= i < |credentials| ==> CurrentVersion(credentials[i])
    requires var rows := TableOf(credentials, key); Lists(list, rows, VisibleIds(rows, None), None)
    ensures InOrder(list)
    ensures forall i :: 0 <= i < |credentials| ==> Stamped(credentials[i], key) in list
    ensures forall k :: 0 <= k < |list| ==> ComesFrom(list[k], credentials, key)
  {
    var rows := TableOf(credentials, key);
    hide FromRow, ToRow, Before, MacMessage;
    forall i | 0 <= i < |credentials|
      ensures Stamped(credentials[i], key) in list
    {
      var c := credentials[i];
      TableLookup(credentials, key, c.id);
      assert c.id in VisibleIds(rows, None);
      assert HasId(list, c.id);
      var k :| 0 <= k < |list| && list[k].id == c.id;
      RowRoundTrip(c, key);
    }
    forall k | 0 <= k < |list|
      ensures ComesFrom(list[k], credentials, key)
    {
      TableLookup(credentials, key, list[k].id);
      var i :| 0 <= i < |credentials| && credentials[i].id == list[k].id;
      RowRoundTrip(credentials[i], key);
      assert list[k] == Stamped(credentials[i], key);
    }
  }

  /** A successful save of credentials with distinct ids is followed by a load of exactly
      them, whoever reads the key, in order. */
  method SaveThenLoad(store: CredentialStore, credentials: seq<StoredCredential>, writeKey: bool, readKey: bool)
    returns (list: seq<StoredCredential>)
    requires DistinctIds(credentials)
    requires forall i :: 0 <= i < |credentials| ==> CurrentVersion(credentials[i])
    modifies store`rows
    ensures InOrder(list) && |list| == |credentials|
    ensures forall i :: 0 <= i < |credentials| ==>
              Stamped(credentials[i], if writeKey then Some(store.hmacKey) else None) in list
    ensures forall k :: 0 <= k < |list| ==>
              ComesFrom(list[k], credentials, if writeKey then Some(store.hmacKey) else None)
  {
    ghost var key := if writeKey then Some(store.hmacKey) else None;
    var ok := store.Save(credentials, writeKey, false);
    LoadsUnfiltered(store.rows, store.hmacKey, readKey);
    var loaded := store.Load(None, readKey, false);
    list := loaded.value;
    LoadAfterSave(credentials, key, list);
    ListingSize(credentials, list, store.rows, key);
  }

  lemma LoadsUnfiltered(rows: Rows, hmacKey: Bytes, keyReadable: bool)
    requires MacsValid(rows, hmacKey)
    ensures CanLoad(rows, None, hmacKey, keyReadable, false)
  {
    hide MacAccepted, FromRow;
  }

  lemma ListingSize(credentials: seq<StoredCredential>, list: seq<StoredCredential>, rows: Rows, key: Option<Bytes>)
    requires DistinctIds(credentials) && rows == TableOf(credentials, key)
    requires Lists(list, rows, VisibleIds(rows, None), None)
    ensures |list| == |credentials|
  {
    IdsOfListing(list, rows, VisibleIds(rows, None), None);
    KeysOfTable(credentials, key);
    assert VisibleIds(rows, None) == rows.Keys;
  }

  /** A listing has as many entries as ids. */
  lemma {:induction false} IdsOfListing(list: seq<StoredCredential>, rows: Rows, ids: set<Bytes>, uid: Option<u32>)
    requires Lists(list, rows, ids, uid)
    ensures |list| == |ids|
    decreases |list|
  {
    hide FromRow, Before;
    if list == [] {
      assert forall id :: !HasId(list, id);
      assert ids == {};
    } else {
      TailLists(list, rows, ids, uid);
      IdsOfListing(list[1..], rows, ids - {list[0].id}, uid);
    }
  }

  lemma {:induction false} KeysOfTable(credentials: seq<StoredCredential>, key: Option<Bytes>)
    requires DistinctIds(credentials)
    ensures |TableOf(credentials, key).Keys| == |credentials|
  {
    hide ToRow;
    if credentials != [] {
      var n := |credentials| - 1;
      var before := TableOf(credentials[..n], key);
      KeysOfTable(credentials[..n], key);
      TableLookup(credentials[..n], key, credentials[n].id);
      assert TableOf(credentials, key).Keys == before.Keys + {credentials[n].id};
    }
  }

  // -------------------------------------------------- sequences of updates

  datatype Update =
    | SetSignCount(id: Bytes, signCount: u32)
    | SetPolicy(id: Bytes, policy: StoredPcrPolicy)
    | SetRecovery(id: Bytes, private: Bytes, salt: Bytes, hash: Bytes, kdf: RecoveryKdf)
    | DeleteRow(id: Bytes)

  /** Any sequence of single-row updates, with any faults, touches only the rows it names
      and leaves every surviving row with its identity, hence every MAC as valid as it was
      for every reader. */
  method ApplyUpdates(store: CredentialStore, updates: seq<Update>, faults: seq<bool>)
    requires |faults| == |updates|
    modifies store`rows
    ensures store.rows.Keys <= old(store.rows).Keys
    ensures forall id :: id in store.rows ==> SameIdentity(old(store.rows)[id], store.rows[id])
    ensures forall id, uid :: id in store.rows ==>
              (MacAccepted(FromRow(id, store.rows[id], uid), store.hmacKey)
               <==> MacAccepted(FromRow(id, old(store.rows)[id], uid), store.hmacKey))
    ensures forall id :: id in old(store.rows) && (forall k :: 0 <= k < |updates| ==> updates[k].id != id) ==>
              id in store.rows && store.rows[id] == old(store.rows)[id]
  {
    for i := 0 to |updates|
      invariant store.rows.Keys <= old(store.rows).Keys
      invariant forall id :: id in store.rows ==> SameIdentity(old(store.rows)[id], store.rows[id])
      invariant forall id :: id in old(store.rows) && (forall k :: 0 <= k < i ==> updates[k].id != id) ==>
                  id in store.rows && store.rows[id] == old(store.rows)[id]
    {
      var _ := ApplyUpdate(store, updates[i], faults[i]);
    }
    forall id, uid | id in store.rows
      ensures MacAccepted(FromRow(id, store.rows[id], uid), store.hmacKey)
              <==> MacAccepted(FromRow(id, old(store.rows)[id], uid), store.hmacKey)
    {
      SameIdentitySameMac(id, old(store.rows)[id], store.rows[id], uid, store.hmacKey);
    }
  }

  method ApplyUpdate(store: CredentialStore, u: Update, fault: bool) returns (ok: bool)
    modifies store`rows
    ensures store.rows.Keys <= old(store.rows).Keys
    ensures forall id :: id in store.rows ==> SameIdentity(old(store.rows)[id], store.rows[id])
    ensures forall id :: id in old(store.rows) && u.id != id ==> id in store.rows && store.rows[id] == old(store.rows)[id]
  {
    match u {
      case SetSignCount(id, signCount) => ok := store.UpdateSignCount(id, signCount, fault);
      case SetPolicy(id, policy) => ok := store.UpdatePolicy(id, policy, fault);
      case SetRecovery(id, private, salt, hash, kdf) => ok := store.UpdateRecovery(id, private, salt, hash, kdf, fault);
      case DeleteRow(id) => ok := store.Delete(id, fault);
    }
  }
}
