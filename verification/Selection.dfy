/**
 Which credentials an operation ranges over: the assertions that match a
 request, the relying parties of an enumeration and the credentials of one
 relying party, each as the increasing list of their indexes; and the proof that
 enumerating relying party by relying party meets every discoverable credential
 exactly once.
 */
module Selection {
  import opened Bytes
  import opened AuthState

  // ----------------------------------------------------- filtered indexes

  /** The indexes below `n` that satisfy `p`, in increasing order. */
  function Filter(n: nat, p: nat -> bool): seq<nat> {
    if n == 0 then [] else Filter(n - 1, p) + if p(n - 1) then [n - 1] else []
  }

  ghost predicate StrictlyIncreasing(s: seq<nat>) {
    forall i, j :: 0 <= i < j < |s| ==> s[i] < s[j]
  }

  lemma {:induction false} FilterIsExact(n: nat, p: nat -> bool)
    ensures StrictlyIncreasing(Filter(n, p))
    ensures forall k: nat :: k in Filter(n, p) <==> k < n && p(k)
  {
    if n > 0 {
      FilterIsExact(n - 1, p);
      var s := Filter(n - 1, p);
      forall i | 0 <= i < |s|
        ensures s[i] < n - 1
      {
        assert s[i] in s;
      }
    }
  }

  ghost predicate NoDuplicates(s: seq<nat>) {
    forall i, j :: 0 <= i < j < |s| ==> s[i] != s[j]
  }

  function Elements(s: seq<nat>): set<nat> {
    set k | k in s
  }

  lemma {:induction false} SizeOfElements(s: seq<nat>)
    requires NoDuplicates(s)
    ensures |Elements(s)| == |s|
  {
    if s != [] {
      var n := |s| - 1;
      SizeOfElements(s[..n]);
      assert s == s[..n] + [s[n]];
      assert Elements(s) == Elements(s[..n]) + {s[n]};
    }
  }

  // ------------------------------------------------------------ assertions

  datatype Descriptor = Descriptor(id: Bytes) | Malformed

  predicate ListContains(list: seq<Descriptor>, id: Bytes) {
    Descriptor(id) in list
  }

  /** A non-empty allow list selects by id; otherwise discoverable credentials match. */
  predicate Matches(c: Credential, rpId: Bytes, allowList: Option<seq<Descriptor>>) {
    c.rpId == rpId
    && if allowList.Some? && allowList.value != [] then ListContains(allowList.value, c.id) else c.discoverable
  }

  function MatchingIndexes(creds: seq<Credential>, rpId: Bytes, allowList: Option<seq<Descriptor>>): seq<nat> {
    Filter(|creds|, (i: nat) => i < |creds| && Matches(creds[i], rpId, allowList))
  }

  /** The matches of a request, in increasing order: the relying party's credentials that the
      allow list names, or its discoverable ones if there is no list or an empty one. */
  lemma MatchingIsExact(creds: seq<Credential>, rpId: Bytes, allowList: Option<seq<Descriptor>>)
    ensures StrictlyIncreasing(MatchingIndexes(creds, rpId, allowList))
    ensures forall k: nat :: k in MatchingIndexes(creds, rpId, allowList) <==>
              && k < |creds| && creds[k].rpId == rpId
              && if allowList.None? || allowList.value == [] then creds[k].discoverable
                 else Descriptor(creds[k].id) in allowList.value
  {
    FilterIsExact(|creds|, (i: nat) => i < |creds| && Matches(creds[i], rpId, allowList));
  }

  // ----------------------------------------------------------- enumeration

  predicate SameRpBefore(creds: seq<Credential>, i: nat)
    requires i < |creds|
  {
    exists j :: 0 <= j < i && creds[j].discoverable && creds[j].rpId == creds[i].rpId
  }

  predicate FirstOfRp(creds: seq<Credential>, i: nat) {
    i < |creds| && creds[i].discoverable && !SameRpBefore(creds, i)
  }

  /** One discoverable credential per relying party: the first. */
  function RpIndexes(creds: seq<Credential>): seq<nat> {
    Filter(|creds|, (i: nat) => FirstOfRp(creds, i))
  }

  predicate HasRpHash(creds: seq<Credential>, i: nat, hash: Bytes -> Bytes, rpHash: Bytes) {
    i < |creds| && creds[i].discoverable && hash(creds[i].rpId) == rpHash
  }

  /** The discoverable credentials of the relying party with this hash. */
  function HashIndexes(creds: seq<Credential>, hash: Bytes -> Bytes, rpHash: Bytes): seq<nat> {
    Filter(|creds|, (i: nat) => HasRpHash(creds, i, hash, rpHash))
  }

  predicate IsDiscoverable(creds: seq<Credential>, i: nat) {
    i < |creds| && creds[i].discoverable
  }

  function DiscoverableIndexes(creds: seq<Credential>): seq<nat> {
    Filter(|creds|, (i: nat) => IsDiscoverable(creds, i))
  }

  lemma RpIndexesExact(creds: seq<Credential>)
    ensures StrictlyIncreasing(RpIndexes(creds))
    ensures forall k: nat :: k in RpIndexes(creds) <==> FirstOfRp(creds, k)
    ensures AllDiscoverable(RpIndexes(creds), creds)
  {
    FilterIsExact(|creds|, (i: nat) => FirstOfRp(creds, i));
    forall i | 0 <= i < |RpIndexes(creds)|
      ensures FirstOfRp(creds, RpIndexes(creds)[i])
    {
      assert RpIndexes(creds)[i] in RpIndexes(creds);
    }
  }

  lemma HashIndexesExact(creds: seq<Credential>, hash: Bytes -> Bytes, rpHash: Bytes)
    ensures StrictlyIncreasing(HashIndexes(creds, hash, rpHash))
    ensures forall k: nat :: k in HashIndexes(creds, hash, rpHash) <==> HasRpHash(creds, k, hash, rpHash)
    ensures AllDiscoverable(HashIndexes(creds, hash, rpHash), creds)
  {
    FilterIsExact(|creds|, (i: nat) => HasRpHash(creds, i, hash, rpHash));
    var s := HashIndexes(creds, hash, rpHash);
    forall i | 0 <= i < |s|
      ensures HasRpHash(creds, s[i], hash, rpHash)
    {
      assert s[i] in s;
    }
  }

  lemma DiscoverableExact(creds: seq<Credential>)
    ensures StrictlyIncreasing(DiscoverableIndexes(creds))
    ensures forall k: nat :: k in DiscoverableIndexes(creds) <==> IsDiscoverable(creds, k)
  {
    FilterIsExact(|creds|, (i: nat) => IsDiscoverable(creds, i));
  }

  /** The loop of enumerateRPsBegin. */
  method CollectRpIndexes(creds: seq<Credential>) returns (indexes: seq<nat>)
    ensures indexes == RpIndexes(creds)
  {
    ghost var p := (i: nat) => FirstOfRp(creds, i);
    indexes := [];
    for index := 0 to |creds|
      invariant indexes == Filter(index, p)
    {
      FilterIsExact(index, p);
      var seen := exists e :: 0 <= e < |indexes| && indexes[e] < |creds| && creds[indexes[e]].rpId == creds[index].rpId;
      assert creds[index].discoverable ==> (seen <==> SameRpBefore(creds, index)) by {
        SeenExactly(creds, index, indexes);
      }
      if creds[index].discoverable && !seen {
        indexes := indexes + [index];
      }
    }
  }

  lemma SeenExactly(creds: seq<Credential>, index: nat, indexes: seq<nat>)
    requires index < |creds|
    requires forall k: nat :: k in indexes <==> k < index && FirstOfRp(creds, k)
    ensures (exists e :: 0 <= e < |indexes| && indexes[e] < |creds| && creds[indexes[e]].rpId == creds[index].rpId)
            <==> SameRpBefore(creds, index)
  {
    if e :| 0 <= e < |indexes| && indexes[e] < |creds| && creds[indexes[e]].rpId == creds[index].rpId {
      assert indexes[e] in indexes;
      assert FirstOfRp(creds, indexes[e]);
    }
    if SameRpBefore(creds, index) {
      var j :| 0 <= j < index && creds[j].discoverable && creds[j].rpId == creds[index].rpId;
      var f := FirstWithRp(creds, j);
      assert f in indexes;
      var e :| 0 <= e < |indexes| && indexes[e] == f;
    }
  }

  /** The first discoverable credential of the relying party of a discoverable one. */
  lemma {:induction false} FirstWithRp(creds: seq<Credential>, k: nat) returns (f: nat)
    requires IsDiscoverable(creds, k)
    ensures f <= k && FirstOfRp(creds, f) && creds[f].rpId == creds[k].rpId
    decreases k
  {
    if SameRpBefore(creds, k) {
      var j :| 0 <= j < k && creds[j].discoverable && creds[j].rpId == creds[k].rpId;
      f := FirstWithRp(creds, j);
    } else {
      f := k;
    }
  }

  /** The loop of enumerateCredentialsBegin. */
  method CollectHashIndexes(creds: seq<Credential>, hash: Bytes -> Bytes, rpHash: Bytes) returns (indexes: seq<nat>)
    ensures indexes == HashIndexes(creds, hash, rpHash)
  {
    ghost var p := (i: nat) => HasRpHash(creds, i, hash, rpHash);
    indexes := [];
    for index := 0 to |creds|
      invariant indexes == Filter(index, p)
    {
      if creds[index].discoverable && hash(creds[index].rpId) == rpHash {
        indexes := indexes + [index];
      }
    }
  }

  /** All enumerated credentials: for each relying party in turn, its credentials. */
  function Enumerated(creds: seq<Credential>, hash: Bytes -> Bytes, rps: seq<nat>): seq<nat>
    requires forall i :: 0 <= i < |rps| ==> rps[i] < |creds|
  {
    if rps == [] then []
    else
      var n := |rps| - 1;
      Enumerated(creds, hash, rps[..n]) + HashIndexes(creds, hash, hash(creds[rps[n]].rpId))
  }

  /** No two relying parties with discoverable credentials share a hash. */
  ghost predicate CollisionFree(creds: seq<Credential>, hash: Bytes -> Bytes) {
    forall i: nat, j: nat :: IsDiscoverable(creds, i) && IsDiscoverable(creds, j)
                             && hash(creds[i].rpId) == hash(creds[j].rpId) ==>
      creds[i].rpId == creds[j].rpId
  }

  ghost predicate OfSomeRp(creds: seq<Credential>, rps: seq<nat>, k: nat)
    requires forall i :: 0 <= i < |rps| ==> rps[i] < |creds|
  {
    k < |creds| && exists i :: 0 <= i < |rps| && creds[rps[i]].rpId == creds[k].rpId
  }

  lemma OfSomeRpStep(creds: seq<Credential>, rps: seq<nat>, k: nat)
    requires forall i :: 0 <= i < |rps| ==> rps[i] < |creds|
    requires rps != [] && k < |creds|
    ensures OfSomeRp(creds, rps, k)
            <==> OfSomeRp(creds, rps[..|rps| - 1], k) || creds[rps[|rps| - 1]].rpId == creds[k].rpId
  {
    var n := |rps| - 1;
    if i :| 0 <= i < |rps| && creds[rps[i]].rpId == creds[k].rpId {
      assert i < n ==> creds[rps[..n][i]].rpId == creds[k].rpId;
    }
    if i :| 0 <= i < n && creds[rps[..n][i]].rpId == creds[k].rpId {
      assert creds[rps[i]].rpId == creds[k].rpId;
    }
  }

  lemma InGroupExactly(creds: seq<Credential>, hash: Bytes -> Bytes, r: nat, k: nat)
    requires IsDiscoverable(creds, r) && CollisionFree(creds, hash)
    ensures k in HashIndexes(creds, hash, hash(creds[r].rpId))
            <==> IsDiscoverable(creds, k) && creds[k].rpId == creds[r].rpId
  {
    HashIndexesExact(creds, hash, hash(creds[r].rpId));
  }

  lemma {:induction false} EnumeratedMembers(creds: seq<Credential>, hash: Bytes -> Bytes, rps: seq<nat>, k: nat)
    requires AllDiscoverable(rps, creds) && CollisionFree(creds, hash)
    ensures k in Enumerated(creds, hash, rps) <==> IsDiscoverable(creds, k) && OfSomeRp(creds, rps, k)
  {
    if rps != [] {
      var n := |rps| - 1;
      EnumeratedMembers(creds, hash, rps[..n], k);
      InGroupExactly(creds, hash, rps[n], k);
      if k < |creds| {
        OfSomeRpStep(creds, rps, k);
      }
      hide HashIndexes, OfSomeRp, CollisionFree;
      var group := HashIndexes(creds, hash, hash(creds[rps[n]].rpId));
      assert k in Enumerated(creds, hash, rps) <==> k in Enumerated(creds, hash, rps[..n]) || k in group;
    }
  }

  lemma ConcatNoDuplicates(a: seq<nat>, b: seq<nat>)
    requires NoDuplicates(a) && NoDuplicates(b)
    requires forall k :: k in a ==> k !in b
    ensures NoDuplicates(a + b)
  {
    var s := a + b;
    forall i, j | 0 <= i < j < |s|
      ensures s[i] != s[j]
    {
      if i < |a| <= j {
        assert s[i] in a && s[j] in b;
      }
    }
  }

  lemma {:induction false} EnumeratedOnce(creds: seq<Credential>, hash: Bytes -> Bytes, rps: seq<nat>)
    requires AllDiscoverable(rps, creds) && CollisionFree(creds, hash)
    requires forall i, j :: 0 <= i < j < |rps| ==> creds[rps[i]].rpId != creds[rps[j]].rpId
    ensures NoDuplicates(Enumerated(creds, hash, rps))
  {
    if rps != [] {
      var n := |rps| - 1;
      var before := Enumerated(creds, hash, rps[..n]);
      var group := HashIndexes(creds, hash, hash(creds[rps[n]].rpId));
      EnumeratedOnce(creds, hash, rps[..n]);
      HashIndexesExact(creds, hash, hash(creds[rps[n]].rpId));
      forall k | k in before
        ensures k !in group
      {
        EnumeratedMembers(creds, hash, rps[..n], k);
        InGroupExactly(creds, hash, rps[n], k);
      }
      ConcatNoDuplicates(before, group);
    }
  }

  lemma RpIndexesAreDistinct(creds: seq<Credential>)
    ensures var rps := RpIndexes(creds);
            && (forall i :: 0 <= i < |rps| ==> rps[i] < |creds|)
            && forall i, j :: 0 <= i < j < |rps| ==> creds[rps[i]].rpId != creds[rps[j]].rpId
  {
    RpIndexesExact(creds);
    var rps := RpIndexes(creds);
    forall i, j | 0 <= i < j < |rps|
      ensures creds[rps[i]].rpId != creds[rps[j]].rpId
    {
      assert rps[i] in rps && rps[j] in rps;
      assert FirstOfRp(creds, rps[i]) && FirstOfRp(creds, rps[j]);
    }
  }

  /** The sum of the per-party totals. */
  function TotalOf(creds: seq<Credential>, hash: Bytes -> Bytes, rps: seq<nat>): nat
    requires forall i :: 0 <= i < |rps| ==> rps[i] < |creds|
  {
    if rps == [] then 0
    else
      var n := |rps| - 1;
      TotalOf(creds, hash, rps[..n]) + |HashIndexes(creds, hash, hash(creds[rps[n]].rpId))|
  }

  lemma {:induction false} TotalIsLength(creds: seq<Credential>, hash: Bytes -> Bytes, rps: seq<nat>)
    requires forall i :: 0 <= i < |rps| ==> rps[i] < |creds|
    ensures TotalOf(creds, hash, rps) == |Enumerated(creds, hash, rps)|
  {
    if rps != [] {
      TotalIsLength(creds, hash, rps[..|rps| - 1]);
    }
  }

  /** Enumerating every relying party and then each one's credentials meets every
      discoverable credential exactly once, and the reported totals add up to the
      number of discoverable credentials. */
  lemma EnumerationIsExact(creds: seq<Credential>, hash: Bytes -> Bytes)
    requires CollisionFree(creds, hash)
    ensures var rps := RpIndexes(creds);
            && (forall i :: 0 <= i < |rps| ==> rps[i] < |creds|)
            && NoDuplicates(Enumerated(creds, hash, rps))
            && (forall k: nat :: k in Enumerated(creds, hash, rps) <==> IsDiscoverable(creds, k))
            && TotalOf(creds, hash, rps) == |DiscoverableIndexes(creds)|
  {
    var rps := RpIndexes(creds);
    RpIndexesAreDistinct(creds);
    RpIndexesExact(creds);
    var all := Enumerated(creds, hash, rps);
    EnumeratedOnce(creds, hash, rps);
    forall k: nat
      ensures k in all <==> IsDiscoverable(creds, k)
    {
      EnumeratedMembers(creds, hash, rps, k);
      if IsDiscoverable(creds, k) {
        var f := FirstWithRp(creds, k);
        assert f in rps;
        var i :| 0 <= i < |rps| && rps[i] == f;
        assert creds[rps[i]].rpId == creds[k].rpId;
      }
    }
    TotalIsLength(creds, hash, rps);
    DiscoverableExact(creds);
    SizeOfElements(all);
    SizeOfElements(DiscoverableIndexes(creds));
    assert Elements(all) == Elements(DiscoverableIndexes(creds));
  }

  /** The groups lie one after the other, the group of party `p` from the total before it. */
  lemma {:induction false} GroupAt(creds: seq<Credential>, hash: Bytes -> Bytes, rps: seq<nat>, p: nat, t: nat)
    requires forall i :: 0 <= i < |rps| ==> rps[i] < |creds|
    requires p < |rps| && t < |HashIndexes(creds, hash, hash(creds[rps[p]].rpId))|
    ensures TotalOf(creds, hash, rps[..p]) + t < |Enumerated(creds, hash, rps)|
    ensures Enumerated(creds, hash, rps)[TotalOf(creds, hash, rps[..p]) + t]
            == HashIndexes(creds, hash, hash(creds[rps[p]].rpId))[t]
  {
    hide HashIndexes;
    var n := |rps| - 1;
    TotalIsLength(creds, hash, rps[..n]);
    if p < n {
      GroupAt(creds, hash, rps[..n], p, t);
      assert rps[..n][..p] == rps[..p];
    }
  }

  lemma {:induction false} TotalGrows(creds: seq<Credential>, hash: Bytes -> Bytes, rps: seq<nat>, p: nat, q: nat)
    requires forall i :: 0 <= i < |rps| ==> rps[i] < |creds|
    requires p < q <= |rps|
    ensures TotalOf(creds, hash, rps[..p]) + |HashIndexes(creds, hash, hash(creds[rps[p]].rpId))|
            <= TotalOf(creds, hash, rps[..q])
  {
    hide HashIndexes;
    assert rps[..q][..q - 1] == rps[..q - 1];
    if p < q - 1 {
      TotalGrows(creds, hash, rps, p, q - 1);
    }
  }

  /** Two parties with one hash show their credentials twice. */
  lemma SharedHashRepeats(creds: seq<Credential>, hash: Bytes -> Bytes, rps: seq<nat>, p: nat, q: nat)
    requires forall i :: 0 <= i < |rps| ==> rps[i] < |creds|
    requires p < q < |rps| && IsDiscoverable(creds, rps[p])
    requires hash(creds[rps[p]].rpId) == hash(creds[rps[q]].rpId)
    ensures !NoDuplicates(Enumerated(creds, hash, rps))
  {
    HashIndexesExact(creds, hash, hash(creds[rps[p]].rpId));
    hide HashIndexes;
    var group := HashIndexes(creds, hash, hash(creds[rps[p]].rpId));
    assert rps[p] in group;
    GroupAt(creds, hash, rps, p, 0);
    GroupAt(creds, hash, rps, q, 0);
    TotalGrows(creds, hash, rps, p, q);
  }

  /** The enumeration meets no credential twice exactly when the parties' hashes differ. */
  lemma EnumeratedOnceExactly(creds: seq<Credential>, hash: Bytes -> Bytes)
    ensures (forall i :: 0 <= i < |RpIndexes(creds)| ==> RpIndexes(creds)[i] < |creds|)
            && (NoDuplicates(Enumerated(creds, hash, RpIndexes(creds))) <==> CollisionFree(creds, hash))
  {
    var rps := RpIndexes(creds);
    RpIndexesAreDistinct(creds);
    RpIndexesExact(creds);
    if CollisionFree(creds, hash) {
      EnumeratedOnce(creds, hash, rps);
    } else {
      var i: nat, j: nat :| IsDiscoverable(creds, i) && IsDiscoverable(creds, j)
                            && hash(creds[i].rpId) == hash(creds[j].rpId) && creds[i].rpId != creds[j].rpId;
      var f := FirstWithRp(creds, i);
      var g := FirstWithRp(creds, j);
      assert f in rps && g in rps;
      var p :| 0 <= p < |rps| && rps[p] == f;
      var q :| 0 <= q < |rps| && rps[q] == g;
      SharedHashRepeats(creds, hash, rps, if p < q then p else q, if p < q then q else p);
    }
  }
}
