/**
 The credential store: SQLite tables seen as an atomic map from credential id
 to row, with an integrity MAC on every row and on the client PIN state.
 */
module Store {
  import opened Bytes

  datatype RecoveryKdf = Argon2id(memoryKib: u32, iterations: u32, parallelism: u32)

  datatype StoredTpmKey = StoredTpmKey(
    private: Bytes, public: Bytes, publicKeyX: Bytes, publicKeyY: Bytes, authValue: Option<Bytes>)

  datatype StoredPcrPolicy = StoredPcrPolicy(
    selection: Bytes, digest: Bytes, policyRef: Option<Bytes>, authorityName: Option<Bytes>,
    authoritySignature: Option<Bytes>, policyVersion: u32)

  datatype StoredRecoverySlot = StoredRecoverySlot(
    slotLabel: Option<Bytes>, passphraseSalt: Bytes, passphraseHash: Bytes, kdf: RecoveryKdf, key: StoredTpmKey)

  datatype StoredCredential = StoredCredential(
    id: Bytes, rpId: Bytes, discoverable: bool, userId: Option<u32>, userHandle: Bytes,
    userName: Option<Bytes>, userDisplayName: Option<Bytes>, key: StoredTpmKey,
    policy: Option<StoredPcrPolicy>, recovery: Option<StoredRecoverySlot>, signCount: u32,
    integrityMac: Option<Mac>)

  /** An HMAC tag: equal only for the same key and message. */
  datatype Mac = Mac(key: Bytes, message: Bytes)

  // ------------------------------------------------------------- the tables

  datatype KeyBlob = KeyBlob(private: Bytes, public: Bytes, authValue: Option<Bytes>)

  datatype Pem = Pem(x: Bytes, y: Bytes)

  datatype Metadata = Metadata(
    rpId: Bytes, discoverable: bool, userId: Option<u32>, userHandle: Bytes, userName: Option<Bytes>,
    userDisplayName: Option<Bytes>, signCount: u32, integrityMac: Option<Mac>)

  datatype PrimarySlot = PrimarySlot(
    selection: Option<Bytes>, digest: Option<Bytes>, policyRef: Option<Bytes>, authorityName: Option<Bytes>,
    authoritySignature: Option<Bytes>, policyVersion: u32, tpmKey: KeyBlob, publicKey: Pem)

  /** The recovery keyslot with its passphrase token. */
  datatype RecoverySlot = RecoverySlot(
    slotLabel: Option<Bytes>, tpmKey: KeyBlob, publicKey: Pem, kdf: RecoveryKdf, salt: Bytes, hash: Bytes)

  datatype Row = Row(meta: Metadata, primary: PrimarySlot, recovery: Option<RecoverySlot>)

  type Rows = map<Bytes, Row>

  function ToBlob(key: StoredTpmKey): KeyBlob {
    KeyBlob(key.private, key.public, key.authValue)
  }

  function FromBlob(blob: KeyBlob, pem: Pem): StoredTpmKey {
    StoredTpmKey(blob.private, blob.public, pem.x, pem.y, blob.authValue)
  }

  function PolicyColumns(policy: Option<StoredPcrPolicy>, tpmKey: KeyBlob, publicKey: Pem): PrimarySlot {
    match policy
    case None => PrimarySlot(None, None, None, None, None, 1, tpmKey, publicKey)
    case Some(p) =>
      PrimarySlot(Some(p.selection), Some(p.digest), p.policyRef, p.authorityName, p.authoritySignature, 1,
                  tpmKey, publicKey)
  }

  /** The row written for a credential; the policy version column is always 1. */
  function ToRow(c: StoredCredential, hmacKey: Option<Bytes>): Row {
    Row(Metadata(c.rpId, c.discoverable, c.userId, c.userHandle, c.userName, c.userDisplayName, c.signCount,
                 if hmacKey.Some? then Some(Mac(hmacKey.value, MacMessage(c))) else None),
        PolicyColumns(c.policy, ToBlob(c.key), Pem(c.key.publicKeyX, c.key.publicKeyY)),
        match c.recovery
        case None => None
        case Some(r) =>
          Some(RecoverySlot(r.slotLabel, ToBlob(r.key), Pem(r.key.publicKeyX, r.key.publicKeyY), r.kdf,
                            r.passphraseSalt, r.passphraseHash)))
  }

  /** The credential read back from a row; an ownerless row is given to the uid that asks. */
  function FromRow(id: Bytes, row: Row, uid: Option<u32>): StoredCredential {
    var m, p := row.meta, row.primary;
    StoredCredential(
      id, m.rpId, m.discoverable, if m.userId.Some? then m.userId else uid, m.userHandle, m.userName,
      m.userDisplayName, FromBlob(p.tpmKey, p.publicKey),
      if p.selection.Some? && p.digest.Some?
      then Some(StoredPcrPolicy(p.selection.value, p.digest.value, p.policyRef, p.authorityName,
                                p.authoritySignature, p.policyVersion))
      else None,
      match row.recovery
      case None => None
      case Some(r) => Some(StoredRecoverySlot(r.slotLabel, r.salt, r.hash, r.kdf, FromBlob(r.tpmKey, r.publicKey))),
      m.signCount, m.integrityMac)
  }

  predicate Visible(row: Row, uid: Option<u32>) {
    uid.None? || row.meta.userId == uid || row.meta.userId.None?
  }

  // -------------------------------------------------------------- the MACs

  function OwnerOrZero(uid: Option<u32>): u32 {
    if uid.Some? then uid.value else 0
  }

  function TextOrEmpty(t: Option<Bytes>): Bytes {
    if t.Some? then t.value else []
  }

  /** A field with its 64-bit length in front. */
  function Framed(field: Bytes): Bytes {
    ToBigEndian(|field|, 8) + field
  }

  /** Handle, owner and names: the tail shared by the current and the legacy message. */
  function MacTail(c: StoredCredential): Bytes {
    Framed(c.userHandle) + (ToBigEndian(OwnerOrZero(c.userId), 4)
                            + (Framed(TextOrEmpty(c.userName)) + Framed(TextOrEmpty(c.userDisplayName))))
  }

  function MacMessage(c: StoredCredential): Bytes {
    Framed(c.id) + (Framed(c.rpId) + ([if c.discoverable then 1 else 0] + MacTail(c)))
  }

  function LegacyMacMessage(c: StoredCredential): Bytes {
    Framed(c.id) + (Framed(c.rpId) + MacTail(c))
  }

  /** Feeds a length-prefixed field into the running MAC input. */
  method Feed(input: Bytes, field: Bytes) returns (output: Bytes)
    ensures output == input + Framed(field)
  {
    output := input + ToBigEndian(|field|, 8);
    output := output + field;
  }

  lemma Reassociate(a: Bytes, b: Bytes, c: Bytes)
    ensures a + (b + c) == (a + b) + c
  {
  }

  /** Feeds the covered fields one by one into the running MAC. */
  method ComputeCredentialMac(key: Bytes, c: StoredCredential) returns (mac: Mac)
    ensures mac == Mac(key, MacMessage(c))
  {
    hide ToBigEndian, Framed;
    var flag: byte := if c.discoverable then 1 else 0;
    var owner := ToBigEndian(OwnerOrZero(c.userId), 4);
    ghost var names := Framed(TextOrEmpty(c.userName)) + Framed(TextOrEmpty(c.userDisplayName));
    var input := Feed([], c.id);
    Reassociate(input, Framed(c.rpId), [flag] + MacTail(c));
    input := Feed(input, c.rpId);
    Reassociate(input, [flag], MacTail(c));
    input := input + [flag];
    Reassociate(input, Framed(c.userHandle), owner + names);
    input := Feed(input, c.userHandle);
    Reassociate(input, owner, names);
    input := input + owner;
    Reassociate(input, Framed(TextOrEmpty(c.userName)), Framed(TextOrEmpty(c.userDisplayName)));
    input := Feed(input, TextOrEmpty(c.userName));
    input := Feed(input, TextOrEmpty(c.userDisplayName));
    mac := Mac(key, input);
  }

  /** The fields an integrity MAC covers, absent names read as empty and an absent owner as 0. */
  function Covered(c: StoredCredential): (Bytes, Bytes, bool, Bytes, u32, Bytes, Bytes) {
    (c.id, c.rpId, c.discoverable, c.userHandle, OwnerOrZero(c.userId), TextOrEmpty(c.userName),
     TextOrEmpty(c.userDisplayName))
  }

  /** Every covered field is shorter than 2^64 bytes, as any field in memory is. */
  predicate Sized(c: StoredCredential) {
    && |c.id| < 0x1_0000_0000_0000_0000 && |c.rpId| < 0x1_0000_0000_0000_0000
    && |c.userHandle| < 0x1_0000_0000_0000_0000 && |TextOrEmpty(c.userName)| < 0x1_0000_0000_0000_0000
    && |TextOrEmpty(c.userDisplayName)| < 0x1_0000_0000_0000_0000
  }

  lemma WidthLimits()
    ensures Pow256(4) == 0x1_0000_0000 && Pow256(8) == 0x1_0000_0000_0000_0000
  {
    assert Pow256(2) == 0x1_0000;
    assert Pow256(6) == 0x1_0000_0000_0000;
  }

  lemma FramedIsPrefixFree(a: Bytes, s: Bytes, b: Bytes, t: Bytes)
    requires |a| < 0x1_0000_0000_0000_0000 && |b| < 0x1_0000_0000_0000_0000
    requires Framed(a) + s == Framed(b) + t
    ensures a == b && s == t
  {
    WidthLimits();
    hide ToBigEndian, Pow256;
    var x, y := ToBigEndian(|a|, 8), ToBigEndian(|b|, 8);
    assert x + (a + s) == Framed(a) + s && y + (b + t) == Framed(b) + t;
    ConcatSplit(x, a + s, y, b + t);
    ToBigEndianInjective(|a|, |b|, 8);
    ConcatSplit(a, s, b, t);
  }

  lemma MacTailBinds(c: StoredCredential, d: StoredCredential)
    requires Sized(c) && Sized(d) && MacTail(c) == MacTail(d)
    ensures c.userHandle == d.userHandle && OwnerOrZero(c.userId) == OwnerOrZero(d.userId)
    ensures TextOrEmpty(c.userName) == TextOrEmpty(d.userName)
    ensures TextOrEmpty(c.userDisplayName) == TextOrEmpty(d.userDisplayName)
  {
    WidthLimits();
    hide ToBigEndian, Pow256, Framed;
    var cn, dn := Framed(TextOrEmpty(c.userName)) + Framed(TextOrEmpty(c.userDisplayName)),
                  Framed(TextOrEmpty(d.userName)) + Framed(TextOrEmpty(d.userDisplayName));
    var co, do := ToBigEndian(OwnerOrZero(c.userId), 4), ToBigEndian(OwnerOrZero(d.userId), 4);
    FramedIsPrefixFree(c.userHandle, co + cn, d.userHandle, do + dn);
    ConcatSplit(co, cn, do, dn);
    ToBigEndianInjective(OwnerOrZero(c.userId), OwnerOrZero(d.userId), 4);
    FramedIsPrefixFree(TextOrEmpty(c.userName), Framed(TextOrEmpty(c.userDisplayName)),
                       TextOrEmpty(d.userName), Framed(TextOrEmpty(d.userDisplayName)));
    var x, y := Framed(TextOrEmpty(c.userDisplayName)), Framed(TextOrEmpty(d.userDisplayName));
    assert x + [] == x && y + [] == y;
    FramedIsPrefixFree(TextOrEmpty(c.userDisplayName), [], TextOrEmpty(d.userDisplayName), []);
  }

  /** Two credentials have the same MAC message exactly when they agree on the covered fields. */
  lemma MacCoversExactly(c: StoredCredential, d: StoredCredential)
    requires Sized(c) && Sized(d)
    ensures MacMessage(c) == MacMessage(d) <==> Covered(c) == Covered(d)
  {
    if MacMessage(c) == MacMessage(d) {
      hide Framed, MacTail;
      var ct, dt := [if c.discoverable then 1 else 0] + MacTail(c), [if d.discoverable then 1 else 0] + MacTail(d);
      FramedIsPrefixFree(c.id, Framed(c.rpId) + ct, d.id, Framed(d.rpId) + dt);
      FramedIsPrefixFree(c.rpId, ct, d.rpId, dt);
      ConcatSplit([if c.discoverable then 1 else 0], MacTail(c), [if d.discoverable then 1 else 0], MacTail(d));
      MacTailBinds(c, d);
    }
  }

  /** The legacy MAC covers the same fields except discoverability. */
  lemma LegacyMacCoversExactly(c: StoredCredential, d: StoredCredential)
    requires Sized(c) && Sized(d)
    ensures LegacyMacMessage(c) == LegacyMacMessage(d) <==> Covered(c.(discoverable := d.discoverable)) == Covered(d)
  {
    if LegacyMacMessage(c) == LegacyMacMessage(d) {
      hide Framed, MacTail;
      FramedIsPrefixFree(c.id, Framed(c.rpId) + MacTail(c), d.id, Framed(d.rpId) + MacTail(d));
      FramedIsPrefixFree(c.rpId, MacTail(c), d.rpId, MacTail(d));
      MacTailBinds(c, d);
    }
  }

  // -------------------------------------------------------- client PIN MAC

  datatype StoredPin = StoredPin(salt: Bytes, verifier: Bytes, retries: u32)

  function PinMacMessage(p: StoredPin): Bytes {
    Framed(p.salt) + (Framed(p.verifier) + ToBigEndian(p.retries, 4))
  }

  lemma PinMacCoversExactly(p: StoredPin, q: StoredPin)
    requires |p.salt| == 32 && |q.salt| == 32 && |p.verifier| == 32 && |q.verifier| == 32
    ensures PinMacMessage(p) == PinMacMessage(q) <==> p == q
  {
    if PinMacMessage(p) == PinMacMessage(q) {
      WidthLimits();
      hide ToBigEndian, Pow256, Framed;
      FramedIsPrefixFree(p.salt, Framed(p.verifier) + ToBigEndian(p.retries, 4),
                         q.salt, Framed(q.verifier) + ToBigEndian(q.retries, 4));
      FramedIsPrefixFree(p.verifier, ToBigEndian(p.retries, 4), q.verifier, ToBigEndian(q.retries, 4));
      ToBigEndianInjective(p.retries, q.retries, 4);
    }
  }

  /** A valid PIN state as the store accepts it. */
  predicate PinStorable(p: StoredPin) {
    |p.salt| == 32 && |p.verifier| == 32 && p.retries <= 8
  }

  // ------------------------------------------------- reading MAC messages

  /** Reads a field with its 64-bit length in front. */
  function ReadField(s: Bytes): Option<(Bytes, Bytes)> {
    if |s| < 8 then None
    else
      var n := BigEndian(s[..8]);
      if |s| - 8 < n then None else Some((s[8..8 + n], s[8 + n..]))
  }

  lemma ReadFramed(field: Bytes, rest: Bytes)
    requires |field| < 0x1_0000_0000_0000_0000
    ensures ReadField(Framed(field) + rest) == Some((field, rest))
  {
    WidthLimits();
    hide ToBigEndian, Pow256, BigEndian;
    BigEndianRoundTrip(|field|, 8);
    var s := Framed(field) + rest;
    assert s[..8] == ToBigEndian(|field|, 8);
    assert s[8..8 + |field|] == field && s[8 + |field|..] == rest;
  }

  /** User handle, owner and the two names. */
  function ReadTail(s: Bytes): Option<(Bytes, nat, Bytes, Bytes)> {
    var handle := ReadField(s);
    if handle.None? || |handle.value.1| < 4 then None
    else
      var name := ReadField(handle.value.1[4..]);
      if name.None? then None
      else
        var display := ReadField(name.value.1);
        if display.None? || display.value.1 != [] then None
        else Some((handle.value.0, BigEndian(handle.value.1[..4]), name.value.0, display.value.0))
  }

  /** The message under a credential's MAC reads as id, relying party, discoverability as a
      byte 0 or 1, user handle, owner, user name and display name, in this order and nothing
      else; the legacy message lacks the byte. */
  lemma MacMessageReads(c: StoredCredential)
    requires Sized(c)
    ensures var id := ReadField(MacMessage(c));
            && id.Some? && id.value.0 == c.id
            && var rp := ReadField(id.value.1);
            && rp.Some? && rp.value.0 == c.rpId && rp.value.1 != []
            && rp.value.1[0] == (if c.discoverable then 1 else 0)
            && ReadTail(rp.value.1[1..]) == Some(TailFields(c))
    ensures var id := ReadField(LegacyMacMessage(c));
            && id.Some? && id.value.0 == c.id
            && var rp := ReadField(id.value.1);
            rp.Some? && rp.value.0 == c.rpId && ReadTail(rp.value.1) == Some(TailFields(c))
  {
    TailReads(c);
    hide Framed, ReadField, MacTail, ReadTail;
    var flag: Bytes := [if c.discoverable then 1 else 0];
    ReadFramed(c.id, Framed(c.rpId) + (flag + MacTail(c)));
    ReadFramed(c.rpId, flag + MacTail(c));
    assert (flag + MacTail(c))[1..] == MacTail(c);
    ReadFramed(c.id, Framed(c.rpId) + MacTail(c));
    ReadFramed(c.rpId, MacTail(c));
  }

  /** An absent owner counts as 0 and an absent name as empty. */
  function TailFields(c: StoredCredential): (Bytes, nat, Bytes, Bytes) {
    (c.userHandle, if c.userId.Some? then c.userId.value else 0,
     if c.userName.Some? then c.userName.value else [],
     if c.userDisplayName.Some? then c.userDisplayName.value else [])
  }

  lemma TailReads(c: StoredCredential)
    requires Sized(c)
    ensures ReadTail(MacTail(c)) == Some(TailFields(c))
  {
    WidthLimits();
    hide ToBigEndian, Pow256, BigEndian, Framed, ReadField;
    var owner, name, display := ToBigEndian(OwnerOrZero(c.userId), 4), TextOrEmpty(c.userName),
                                TextOrEmpty(c.userDisplayName);
    var names := Framed(name) + Framed(display);
    ReadFramed(c.userHandle, owner + names);
    assert (owner + names)[..4] == owner && (owner + names)[4..] == names;
    BigEndianRoundTrip(OwnerOrZero(c.userId), 4);
    ReadFramed(name, Framed(display));
    ReadFramed(display, []);
    assert Framed(display) + [] == Framed(display);
  }

  /** The message under the PIN state's MAC reads as salt, verifier and the 32-bit retries. */
  lemma PinMacMessageReads(p: StoredPin)
    requires |p.salt| < 0x1_0000_0000_0000_0000 && |p.verifier| < 0x1_0000_0000_0000_0000
    ensures var salt := ReadField(PinMacMessage(p));
            && salt.Some? && salt.value.0 == p.salt
            && var verifier := ReadField(salt.value.1);
            && verifier.Some? && verifier.value.0 == p.verifier
            && |verifier.value.1| == 4 && BigEndian(verifier.value.1) == p.retries
  {
    WidthLimits();
    hide ToBigEndian, Pow256, BigEndian, Framed, ReadField;
    ReadFramed(p.salt, Framed(p.verifier) + ToBigEndian(p.retries, 4));
    ReadFramed(p.verifier, ToBigEndian(p.retries, 4));
    BigEndianRoundTrip(p.retries, 4);
  }

  /** Comparison in time independent of the contents. */
  method ConstantTimeEqual(left: seq<bv8>, right: seq<bv8>) returns (equal: bool)
    ensures equal <==> left == right
  {
    if |left| != |right| {
      return false;
    }
    var difference: bv8 := 0;
    for i := 0 to |left|
      invariant difference == 0 <==> left[..i] == right[..i]
    {
      var before := difference;
      difference := difference | (left[i] ^ right[i]);
      DifferenceStep(before, left[i], right[i]);
      assert left[..i + 1] == left[..i] + [left[i]] && right[..i + 1] == right[..i] + [right[i]];
    }
    assert left[..|left|] == left && right[..|left|] == right;
    equal := difference == 0;
  }

  lemma DifferenceStep(d: bv8, x: bv8, y: bv8)
    ensures d | (x ^ y) == 0 <==> d == 0 && x == y
  {
  }
}
