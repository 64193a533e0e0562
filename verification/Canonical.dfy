/**
 Canonicalisation of CBOR responses and of the parameters that a credential
 management request authenticates: map entries are sorted, stably, by their
 encoded keys, at every depth of arrays and map values.
 */
module Canonical {
  import opened Bytes
  import opened Cbor

  // ------------------------------------------------------------ stable sort

  function KeyBytes(e: Entry): Bytes {
    Encode(e.key)
  }

  /** Inserts an entry before the first one that does not sort below it, so that an
      entry which came first stays first among equal keys. */
  function Insert(e: Entry, sorted: seq<Entry>): (r: seq<Entry>)
    ensures |r| == |sorted| + 1
  {
    if sorted == [] || LessEq(KeyBytes(e), KeyBytes(sorted[0])) then [e] + sorted
    else [sorted[0]] + Insert(e, sorted[1..])
  }

  function Sort(entries: seq<Entry>): (r: seq<Entry>)
    ensures |r| == |entries|
  {
    if entries == [] then [] else Insert(entries[0], Sort(entries[1..]))
  }

  ghost predicate Sorted(entries: seq<Entry>) {
    forall i, j :: 0 <= i < j < |entries| ==> LessEq(KeyBytes(entries[i]), KeyBytes(entries[j]))
  }

  /** The entries under one encoded key, in order. */
  function WithKey(entries: seq<Entry>, k: Bytes): seq<Entry> {
    if entries == [] then []
    else (if KeyBytes(entries[0]) == k then [entries[0]] else []) + WithKey(entries[1..], k)
  }

  /** The first of a group is an entry of the list under that key. */
  lemma {:induction false} GroupHead(entries: seq<Entry>, k: Bytes) returns (i: nat)
    requires WithKey(entries, k) != []
    ensures i < |entries| && entries[i] == WithKey(entries, k)[0] && KeyBytes(entries[i]) == k
  {
    if KeyBytes(entries[0]) == k {
      i := 0;
    } else {
      i := GroupHead(entries[1..], k);
      i := i + 1;
    }
  }

  /** What a stable sort by key means, independently of any algorithm. */
  ghost predicate IsStableSortOf(out: seq<Entry>, entries: seq<Entry>) {
    Sorted(out) && forall k :: WithKey(out, k) == WithKey(entries, k)
  }

  lemma LessEqTransitive(a: Bytes, b: Bytes, c: Bytes)
    requires LessEq(a, b) && LessEq(b, c)
    ensures LessEq(a, c)
  {
    if Less(c, a) {
      LessTotal(a, b);
      LessTotal(b, c);
      if a == b {
        assert false;
      } else if b == c {
        assert false;
      } else {
        LessTransitive(c, a, b);
        LessAsymmetric(c, b);
      }
    }
  }

  lemma {:induction false} InsertKeepsSorted(e: Entry, sorted: seq<Entry>)
    requires Sorted(sorted)
    ensures Sorted(Insert(e, sorted))
    ensures forall x :: x in Insert(e, sorted) <==> x == e || x in sorted
  {
    hide KeyBytes, LessEq;
    if sorted == [] {
    } else if LessEq(KeyBytes(e), KeyBytes(sorted[0])) {
      var r := Insert(e, sorted);
      assert r == [e] + sorted;
      forall i, j | 0 <= i < j < |r|
        ensures LessEq(KeyBytes(r[i]), KeyBytes(r[j]))
      {
        if i == 0 && j > 1 {
          assert LessEq(KeyBytes(sorted[0]), KeyBytes(sorted[j - 1]));
          LessEqTransitive(KeyBytes(e), KeyBytes(sorted[0]), KeyBytes(sorted[j - 1]));
        } else if i > 0 {
          assert LessEq(KeyBytes(sorted[i - 1]), KeyBytes(sorted[j - 1]));
        }
      }
    } else {
      var tail := Insert(e, sorted[1..]);
      InsertKeepsSorted(e, sorted[1..]);
      var r := Insert(e, sorted);
      assert r == [sorted[0]] + tail;
      assert sorted == [sorted[0]] + sorted[1..];
      NotLessEq(KeyBytes(e), KeyBytes(sorted[0]));
      forall i, j | 0 <= i < j < |r|
        ensures LessEq(KeyBytes(r[i]), KeyBytes(r[j]))
      {
        if i == 0 {
          assert tail[j - 1] in tail;
          if tail[j - 1] != e {
            var m :| 0 <= m < |sorted[1..]| && sorted[1..][m] == tail[j - 1];
            assert LessEq(KeyBytes(sorted[0]), KeyBytes(sorted[m + 1]));
          }
        } else {
          assert LessEq(KeyBytes(tail[i - 1]), KeyBytes(tail[j - 1]));
        }
      }
    }
  }

  lemma NotLessEq(a: Bytes, b: Bytes)
    requires !LessEq(a, b)
    ensures LessEq(b, a) && a != b
  {
    LessIrreflexive(a);
    LessAsymmetric(b, a);
  }

  lemma {:induction false} InsertIsStable(e: Entry, sorted: seq<Entry>, k: Bytes)
    ensures WithKey(Insert(e, sorted), k) == WithKey([e] + sorted, k)
  {
    hide KeyBytes, LessEq;
    assert ([e] + sorted)[1..] == sorted;
    assert WithKey([e] + sorted, k) == (if KeyBytes(e) == k then [e] else []) + WithKey(sorted, k);
    if sorted != [] && !LessEq(KeyBytes(e), KeyBytes(sorted[0])) {
      InsertIsStable(e, sorted[1..], k);
      NotLessEq(KeyBytes(e), KeyBytes(sorted[0]));
      assert Insert(e, sorted)[1..] == Insert(e, sorted[1..]);
      assert ([e] + sorted[1..])[1..] == sorted[1..];
    }
  }

  lemma {:induction false} SortIsStableSort(entries: seq<Entry>)
    ensures IsStableSortOf(Sort(entries), entries)
    ensures forall x :: x in Sort(entries) <==> x in entries
  {
    if entries != [] {
      SortIsStableSort(entries[1..]);
      InsertKeepsSorted(entries[0], Sort(entries[1..]));
      forall k
        ensures WithKey(Sort(entries), k) == WithKey(entries, k)
      {
        InsertIsStable(entries[0], Sort(entries[1..]), k);
        assert ([entries[0]] + Sort(entries[1..]))[1..] == Sort(entries[1..]);
      }
      assert entries == [entries[0]] + entries[1..];
    }
  }

  lemma {:induction false} KeyedEntryExists(entries: seq<Entry>, i: nat)
    requires i < |entries|
    ensures WithKey(entries, KeyBytes(entries[i])) != []
    ensures entries[i] in WithKey(entries, KeyBytes(entries[i]))
    ensures i == 0 ==> WithKey(entries, KeyBytes(entries[0]))[0] == entries[0]
  {
    if i > 0 {
      KeyedEntryExists(entries[1..], i - 1);
    }
  }

  /** A stable sort is unique: every stable sorting algorithm returns the same list. */
  lemma {:induction false} StableSortUnique(a: seq<Entry>, b: seq<Entry>)
    requires Sorted(a) && Sorted(b) && forall k :: WithKey(a, k) == WithKey(b, k)
    ensures a == b
  {
    if a == [] {
      if b != [] {
        KeyedEntryExists(b, 0);
      }
    } else {
      KeyedEntryExists(a, 0);
      assert WithKey(b, KeyBytes(a[0])) != [];
      assert b != [];
      KeyedEntryExists(b, 0);
      SameFirstKey(a, b);
      assert a[0] == b[0];
      forall k
        ensures WithKey(a[1..], k) == WithKey(b[1..], k)
      {
        TailWithKey(a, k);
        TailWithKey(b, k);
      }
      StableSortUnique(a[1..], b[1..]);
      assert a == [a[0]] + a[1..] && b == [b[0]] + b[1..];
    }
  }

  lemma TailWithKey(a: seq<Entry>, k: Bytes)
    requires a != []
    ensures WithKey(a[1..], k)
         == if KeyBytes(a[0]) == k then WithKey(a, k)[1..] else WithKey(a, k)
  {
  }

  lemma SameFirstKey(a: seq<Entry>, b: seq<Entry>)
    requires Sorted(a) && Sorted(b) && a != [] && b != []
    requires WithKey(a, KeyBytes(b[0])) != [] && WithKey(b, KeyBytes(a[0])) != []
    ensures KeyBytes(a[0]) == KeyBytes(b[0])
  {
    var i := GroupHead(a, KeyBytes(b[0]));
    var j := GroupHead(b, KeyBytes(a[0]));
    LessTotal(KeyBytes(a[0]), KeyBytes(b[0]));
    LessIrreflexive(KeyBytes(a[0]));
  }

  // --------------------------------------------------------- canonicalise

  function Canonicalize(v: Value): (c: Value)
    decreases v, 1
  {
    match v
    case Array(items) => Array(CanonicalItems(items))
    case Map(entries) => Map(Sort(CanonicalEntries(entries)))
    case _ => v
  }

  function CanonicalItems(items: seq<Value>): (r: seq<Value>)
    ensures |r| == |items|
    ensures forall i :: 0 <= i < |items| ==> r[i] == Canonicalize(items[i])
    decreases items, 0
  {
    if items == [] then [] else [Canonicalize(items[0])] + CanonicalItems(items[1..])
  }

  function CanonicalEntry(e: Entry): (r: Entry)
    decreases e, 0
  {
    Entry(e.key, Canonicalize(e.value))
  }

  function CanonicalEntries(entries: seq<Entry>): (r: seq<Entry>)
    ensures |r| == |entries|
    ensures forall i :: 0 <= i < |entries| ==> r[i] == CanonicalEntry(entries[i])
    decreases entries, 0
  {
    if entries == [] then [] else [CanonicalEntry(entries[0])] + CanonicalEntries(entries[1..])
  }

  lemma {:induction false} CanonicalizeIdempotent(v: Value)
    ensures Canonicalize(Canonicalize(v)) == Canonicalize(v)
    decreases v, 1
  {
    match v
    case Array(items) =>
      forall i | 0 <= i < |items|
        ensures Canonicalize(Canonicalize(items[i])) == Canonicalize(items[i])
      {
        CanonicalizeIdempotent(items[i]);
      }
      assert CanonicalItems(CanonicalItems(items)) == CanonicalItems(items);
    case Map(entries) =>
      var es := CanonicalEntries(entries);
      forall i | 0 <= i < |entries|
        ensures CanonicalEntry(es[i]) == es[i]
      {
        EntryIdempotent(entries[i]);
      }
      SortIsStableSort(es);
      var sorted := Sort(es);
      assert CanonicalEntries(sorted) == sorted by {
        forall i | 0 <= i < |sorted|
          ensures CanonicalEntry(sorted[i]) == sorted[i]
        {
          assert sorted[i] in es;
        }
      }
      SortIsStableSort(sorted);
      StableSortUnique(Sort(sorted), sorted);
    case _ =>
  }

  lemma EntryIdempotent(e: Entry)
    ensures CanonicalEntry(CanonicalEntry(e)) == CanonicalEntry(e)
    decreases e, 0
  {
    CanonicalizeIdempotent(e.value);
  }

  // ------------------------------------------------------- look-up commutes

  /** Does a candidate key match an integer or text key that the code looks up? */
  predicate Matches(candidate: Value, key: Value) {
    IsSimpleKey(key) && candidate == key
  }

  /** The value of the first entry whose key matches. */
  function MapValue(entries: seq<Entry>, key: Value): Option<Value> {
    if entries == [] then None
    else if Matches(entries[0].key, key) then Some(entries[0].value)
    else MapValue(entries[1..], key)
  }

  lemma {:induction false} MapValueOfGroup(entries: seq<Entry>, key: Value)
    ensures MapValue(entries, key) == MapValue(WithKey(entries, Encode(key)), key)
  {
    if entries != [] {
      MapValueOfGroup(entries[1..], key);
      var w := WithKey(entries, Encode(key));
      if KeyBytes(entries[0]) == Encode(key) {
        assert w == [entries[0]] + WithKey(entries[1..], Encode(key));
        assert w[1..] == WithKey(entries[1..], Encode(key));
      } else {
        assert w == WithKey(entries[1..], Encode(key));
      }
    }
  }

  lemma {:induction false} MapValueOfCanonicalEntries(entries: seq<Entry>, key: Value)
    ensures MapValue(CanonicalEntries(entries), key)
         == (match MapValue(entries, key) case None => None case Some(v) => Some(Canonicalize(v)))
  {
    if entries != [] {
      MapValueOfCanonicalEntries(entries[1..], key);
      assert CanonicalEntries(entries)[1..] == CanonicalEntries(entries[1..]);
    }
  }

  /** Looking up a key commutes with canonicalisation, also when the key occurs more
      than once, because the sort is stable. */
  lemma LookupCommutes(entries: seq<Entry>, key: Value)
    ensures MapValue(Canonicalize(Map(entries)).entries, key)
         == (match MapValue(entries, key) case None => None case Some(v) => Some(Canonicalize(v)))
  {
    var es := CanonicalEntries(entries);
    SortIsStableSort(es);
    MapValueOfGroup(Sort(es), key);
    MapValueOfGroup(es, key);
    MapValueOfCanonicalEntries(entries, key);
  }

  // ----------------------------------------------------- order of entries

  predicate DistinctKeys(entries: seq<Entry>) {
    forall i, j :: 0 <= i < j < |entries| ==> entries[i].key != entries[j].key
  }

  /** No map has a repeated key, at any depth that canonicalisation reaches. */
  predicate WellKeyed(v: Value)
    decreases v, 1
  {
    match v
    case Array(items) => forall i :: 0 <= i < |items| ==> WellKeyed(items[i])
    case Map(entries) =>
      DistinctKeys(entries) && forall i :: 0 <= i < |entries| ==> WellKeyed(entries[i].value)
    case _ => true
  }

  /** Equal up to the order of map entries, at any depth of arrays and map values. */
  ghost predicate SameUpToOrder(v: Value, w: Value)
    decreases v, 1
  {
    match v
    case Array(items) =>
      w.Array? && |items| == |w.items| && forall i :: 0 <= i < |items| ==> SameUpToOrder(items[i], w.items[i])
    case Map(entries) =>
      && w.Map? && |entries| == |w.entries|
      && (forall i :: 0 <= i < |entries| ==> HasCounterpart(entries[i], w.entries))
      && (forall j :: 0 <= j < |w.entries| ==> HasKey(entries, w.entries[j].key))
    case _ => v == w
  }

  ghost predicate HasCounterpart(e: Entry, others: seq<Entry>)
    decreases e, 0
  {
    exists j :: 0 <= j < |others| && others[j].key == e.key && SameUpToOrder(e.value, others[j].value)
  }

  ghost predicate HasKey(entries: seq<Entry>, key: Value) {
    exists i :: 0 <= i < |entries| && entries[i].key == key
  }

  /** With distinct keys a group holds at most its one entry. */
  lemma {:induction false} SingletonGroup(entries: seq<Entry>, i: nat)
    requires i < |entries| && DistinctKeys(entries)
    requires forall j :: 0 <= j < |entries| ==> Sized(entries[j].key)
    ensures WithKey(entries, KeyBytes(entries[i])) == [entries[i]]
  {
    var k := KeyBytes(entries[i]);
    if i == 0 {
      if WithKey(entries[1..], k) != [] {
        var m := GroupHead(entries[1..], k);
        EncodeInjective(entries[m + 1].key, entries[0].key);
        assert false;
      }
    } else {
      if KeyBytes(entries[0]) == k {
        EncodeInjective(entries[0].key, entries[i].key);
        assert false;
      }
      SingletonGroup(entries[1..], i - 1);
    }
  }

  ghost predicate SizedKeys(entries: seq<Entry>) {
    forall i :: 0 <= i < |entries| ==> Sized(entries[i].key)
  }

  /** Lists with distinct keys and the same members have the same groups. */
  lemma SameMembersSameGroups(a: seq<Entry>, b: seq<Entry>, k: Bytes)
    requires DistinctKeys(a) && DistinctKeys(b) && SizedKeys(a) && SizedKeys(b)
    requires forall x :: x in a <==> x in b
    ensures WithKey(a, k) == WithKey(b, k)
  {
    if WithKey(a, k) != [] {
      GroupFromMember(a, b, k);
    } else if WithKey(b, k) != [] {
      GroupFromMember(b, a, k);
    }
  }

  lemma GroupFromMember(a: seq<Entry>, b: seq<Entry>, k: Bytes)
    requires DistinctKeys(a) && DistinctKeys(b) && SizedKeys(a) && SizedKeys(b)
    requires forall x :: x in a ==> x in b
    requires WithKey(a, k) != []
    ensures WithKey(a, k) == WithKey(b, k)
  {
    var i := GroupHead(a, k);
    assert a[i] in b;
    var j :| 0 <= j < |b| && b[j] == a[i];
    SingletonGroup(a, i);
    SingletonGroup(b, j);
  }

  lemma SortOfSameMembers(a: seq<Entry>, b: seq<Entry>)
    requires DistinctKeys(a) && DistinctKeys(b) && SizedKeys(a) && SizedKeys(b)
    requires forall x :: x in a <==> x in b
    ensures Sort(a) == Sort(b)
  {
    SortIsStableSort(a);
    SortIsStableSort(b);
    forall k
      ensures WithKey(Sort(a), k) == WithKey(Sort(b), k)
    {
      SameMembersSameGroups(a, b, k);
    }
    StableSortUnique(Sort(a), Sort(b));
  }

  /** Canonicalisation decides equality up to entry order: two values with distinct
      keys have the same canonical form exactly when they differ only in the order of
      map entries. */
  lemma {:induction false} CanonicalExactlyUpToOrder(v: Value, w: Value)
    requires Sized(v) && Sized(w) && WellKeyed(v) && WellKeyed(w)
    ensures Canonicalize(v) == Canonicalize(w) <==> SameUpToOrder(v, w)
    decreases v, 1
  {
    match v
    case Array(items) =>
      if w.Array? && |items| == |w.items| {
        forall i | 0 <= i < |items|
          ensures Canonicalize(items[i]) == Canonicalize(w.items[i]) <==> SameUpToOrder(items[i], w.items[i])
        {
          CanonicalExactlyUpToOrder(items[i], w.items[i]);
        }
        if SameUpToOrder(v, w) {
          assert CanonicalItems(items) == CanonicalItems(w.items);
        }
      } else {
        assert Canonicalize(v) == Canonicalize(w) ==> |CanonicalItems(items)| == |CanonicalItems(w.items)|;
      }
    case Map(entries) =>
      if w.Map? {
        CounterpartsExactly(entries, w.entries);
        MapsEqualExactly(entries, w.entries);
      }
    case _ =>
  }

  lemma {:induction false} CounterpartsExactly(a: seq<Entry>, b: seq<Entry>)
    requires forall i :: 0 <= i < |a| ==> Sized(a[i].value) && WellKeyed(a[i].value)
    requires forall j :: 0 <= j < |b| ==> Sized(b[j].value) && WellKeyed(b[j].value)
    ensures forall i :: 0 <= i < |a| ==> (HasCounterpart(a[i], b) <==> CanonicalEntry(a[i]) in CanonicalEntries(b))
    decreases a, 0
  {
    forall i | 0 <= i < |a|
      ensures HasCounterpart(a[i], b) <==> CanonicalEntry(a[i]) in CanonicalEntries(b)
    {
      CounterpartExactly(a[i], b);
    }
  }

  lemma {:induction false} CounterpartExactly(e: Entry, b: seq<Entry>)
    requires Sized(e.value) && WellKeyed(e.value)
    requires forall j :: 0 <= j < |b| ==> Sized(b[j].value) && WellKeyed(b[j].value)
    ensures HasCounterpart(e, b) <==> CanonicalEntry(e) in CanonicalEntries(b)
    decreases e, 0
  {
    forall j | 0 <= j < |b|
      ensures Canonicalize(e.value) == Canonicalize(b[j].value) <==> SameUpToOrder(e.value, b[j].value)
    {
      CanonicalExactlyUpToOrder(e.value, b[j].value);
    }
    var cs := CanonicalEntries(b);
    if CanonicalEntry(e) in cs {
      var j :| 0 <= j < |cs| && cs[j] == CanonicalEntry(e);
      assert b[j].key == e.key;
    }
    if HasCounterpart(e, b) {
      var j :| 0 <= j < |b| && b[j].key == e.key && SameUpToOrder(e.value, b[j].value);
      assert cs[j] == CanonicalEntry(e);
    }
  }

  /** Canonicalising the values of a map leaves its keys alone. */
  lemma CanonicalKeys(a: seq<Entry>)
    ensures DistinctKeys(a) ==> DistinctKeys(CanonicalEntries(a))
    ensures SizedKeys(a) ==> SizedKeys(CanonicalEntries(a))
    ensures forall k :: HasKey(a, k) <==> HasKey(CanonicalEntries(a), k)
  {
    hide Canonicalize, Sized;
    var x := CanonicalEntries(a);
    assert forall i :: 0 <= i < |a| ==> x[i].key == a[i].key;
    forall k
      ensures HasKey(a, k) <==> HasKey(x, k)
    {
      if HasKey(a, k) {
        var i :| 0 <= i < |a| && a[i].key == k;
        assert x[i].key == k;
      }
      if HasKey(x, k) {
        var i :| 0 <= i < |x| && x[i].key == k;
        assert a[i].key == k;
      }
    }
  }

  lemma MembersBothWays(x: seq<Entry>, y: seq<Entry>)
    requires DistinctKeys(y)
    requires forall i :: 0 <= i < |x| ==> x[i] in y
    requires forall j :: 0 <= j < |y| ==> HasKey(x, y[j].key)
    ensures forall e :: e in x <==> e in y
  {
    forall j | 0 <= j < |y|
      ensures y[j] in x
    {
      assert HasKey(x, y[j].key);
      var i :| 0 <= i < |x| && x[i].key == y[j].key;
      var m :| 0 <= m < |y| && y[m] == x[i];
      assert m == j;
    }
  }

  lemma CanonicalAt(a: seq<Entry>, i: nat)
    requires i < |a|
    ensures CanonicalEntries(a)[i] == CanonicalEntry(a[i]) && CanonicalEntries(a)[i].key == a[i].key
  {
  }

  lemma SameUpToOrderGivesSort(a: seq<Entry>, b: seq<Entry>)
    requires DistinctKeys(a) && DistinctKeys(b) && SizedKeys(a) && SizedKeys(b)
    requires forall i :: 0 <= i < |a| ==> CanonicalEntry(a[i]) in CanonicalEntries(b)
    requires forall j :: 0 <= j < |b| ==> HasKey(a, b[j].key)
    ensures Sort(CanonicalEntries(a)) == Sort(CanonicalEntries(b))
  {
    hide *;
    var x, y := CanonicalEntries(a), CanonicalEntries(b);
    CanonicalKeys(a);
    CanonicalKeys(b);
    assert forall i :: 0 <= i < |x| ==> x[i] in y;
    forall j | 0 <= j < |y|
      ensures HasKey(x, y[j].key)
    {
      CanonicalAt(b, j);
      assert HasKey(a, b[j].key);
    }
    MembersBothWays(x, y);
    SortOfSameMembers(x, y);
  }

  lemma SortMember(x: seq<Entry>, y: seq<Entry>, e: Entry)
    requires Sort(x) == Sort(y)
    ensures e in x <==> e in y
  {
    SortIsStableSort(x);
    SortIsStableSort(y);
  }

  lemma SortedCounterpart(a: seq<Entry>, b: seq<Entry>, i: nat)
    requires Sort(CanonicalEntries(a)) == Sort(CanonicalEntries(b)) && i < |a|
    ensures CanonicalEntry(a[i]) in CanonicalEntries(b)
    ensures HasKey(CanonicalEntries(b), a[i].key)
  {
    hide *;
    var x, y := CanonicalEntries(a), CanonicalEntries(b);
    CanonicalAt(a, i);
    SortMember(x, y, x[i]);
    HasKeyOfMember(y, x[i]);
  }

  lemma SortKeepsLength(a: seq<Entry>, b: seq<Entry>)
    requires Sort(CanonicalEntries(a)) == Sort(CanonicalEntries(b))
    ensures |a| == |b|
  {
    assert |a| == |Sort(CanonicalEntries(a))| == |Sort(CanonicalEntries(b))| == |b|;
  }

  lemma SortedKey(a: seq<Entry>, b: seq<Entry>, j: nat)
    requires Sort(CanonicalEntries(a)) == Sort(CanonicalEntries(b)) && j < |b|
    ensures HasKey(a, b[j].key)
  {
    hide *;
    SortedCounterpart(b, a, j);
    CanonicalKeys(a);
  }

  lemma HasKeyOfMember(x: seq<Entry>, e: Entry)
    requires e in x
    ensures HasKey(x, e.key)
  {
  }

  /** Given that counterparts are equal canonical entries, maps are equal up to order
      exactly when their sorted canonical entries are the same list. */
  lemma MapsEqualExactly(a: seq<Entry>, b: seq<Entry>)
    requires DistinctKeys(a) && DistinctKeys(b) && SizedKeys(a) && SizedKeys(b)
    requires forall i :: 0 <= i < |a| ==> (HasCounterpart(a[i], b) <==> CanonicalEntry(a[i]) in CanonicalEntries(b))
    ensures Sort(CanonicalEntries(a)) == Sort(CanonicalEntries(b)) <==> SameUpToOrder(Map(a), Map(b))
  {
    hide CanonicalEntries, CanonicalEntry, HasCounterpart, Sort, HasKey, Sized;
    if SameUpToOrder(Map(a), Map(b)) {
      SameUpToOrderGivesSort(a, b);
    }
    if Sort(CanonicalEntries(a)) == Sort(CanonicalEntries(b)) {
      SortKeepsLength(a, b);
      forall i | 0 <= i < |a|
        ensures HasCounterpart(a[i], b)
      {
        SortedCounterpart(a, b, i);
      }
      forall j | 0 <= j < |b|
        ensures HasKey(a, b[j].key)
      {
        SortedKey(a, b, j);
      }
    }
  }

  // -------------------------------------------- management authentication

  /** The message a credential management request must authenticate. */
  function ManagementAuthMessage(subCommand: int, params: Option<seq<Entry>>): Bytes {
    [subCommand % 256] + if params.Some? then Encode(Canonicalize(Map(params.value))) else []
  }

  lemma {:induction false} SortSized(entries: seq<Entry>)
    requires Sized(Map(entries))
    ensures Sized(Map(Sort(entries)))
  {
    SortIsStableSort(entries);
    var s := Sort(entries);
    forall i | 0 <= i < |s|
      ensures Sized(s[i].key) && Sized(s[i].value)
    {
      assert s[i] in entries;
    }
  }

  lemma {:induction false} CanonicalizeSized(v: Value)
    requires Sized(v)
    ensures Sized(Canonicalize(v))
    decreases v, 1
  {
    match v
    case Array(items) =>
      forall i | 0 <= i < |items|
        ensures Sized(CanonicalItems(items)[i])
      {
        CanonicalizeSized(items[i]);
      }
    case Map(entries) =>
      var es := CanonicalEntries(entries);
      forall i | 0 <= i < |entries|
        ensures Sized(es[i].key) && Sized(es[i].value)
      {
        EntrySized(entries[i]);
      }
      SortSized(es);
    case _ =>
  }

  lemma EntrySized(e: Entry)
    requires Sized(e.key) && Sized(e.value)
    ensures Sized(CanonicalEntry(e).key) && Sized(CanonicalEntry(e).value)
    decreases e, 0
  {
    CanonicalizeSized(e.value);
  }

  /** What the bytes of the authenticated message are: the low byte of the sub-command comes
      first; nothing follows it without parameters, and with parameters exactly one data
      item, which reads as their canonical form. */
  lemma AuthMessageReads(subCommand: int, params: Option<seq<Entry>>)
    requires params.Some? ==> Sized(Map(params.value))
    ensures var m := ManagementAuthMessage(subCommand, params);
            && m != [] && m[0] == subCommand % 256
            && (params.None? ==> m[1..] == [])
            && (params.Some? ==> Decode(m[1..]) == Some((Canonicalize(Map(params.value)), [])))
  {
    hide Canonicalize, Encode, Decode, Sized;
    if params.Some? {
      var v := Canonicalize(Map(params.value));
      CanonicalizeSized(Map(params.value));
      DecodeEncode(v, []);
      assert Encode(v) + [] == Encode(v);
      assert ManagementAuthMessage(subCommand, params)[1..] == Encode(v);
    }
  }

  /** The authenticated message binds the request: two requests with distinct-keyed
      parameters have the same message exactly when their sub-commands agree in the low
      byte and their parameters differ only in entry order. */
  lemma AuthMessageExactly(c: int, p: Option<seq<Entry>>, d: int, q: Option<seq<Entry>>)
    requires p.Some? ==> Sized(Map(p.value)) && WellKeyed(Map(p.value))
    requires q.Some? ==> Sized(Map(q.value)) && WellKeyed(Map(q.value))
    ensures ManagementAuthMessage(c, p) == ManagementAuthMessage(d, q)
            <==> && c % 256 == d % 256
                 && p.Some? == q.Some?
                 && (p.Some? ==> SameUpToOrder(Map(p.value), Map(q.value)))
  {
    hide Canonicalize, SameUpToOrder, Encode, WellKeyed, Sized;
    var m, n := ManagementAuthMessage(c, p), ManagementAuthMessage(d, q);
    assert m[0] == c % 256 && n[0] == d % 256;
    if p.Some? && q.Some? {
      var v, w := Canonicalize(Map(p.value)), Canonicalize(Map(q.value));
      assert m[1..] == Encode(v) && n[1..] == Encode(w);
      CanonicalizeSized(Map(p.value));
      CanonicalizeSized(Map(q.value));
      CanonicalExactlyUpToOrder(Map(p.value), Map(q.value));
      if Encode(v) == Encode(w) {
        EncodeInjective(v, w);
      }
    } else {
      assert p.Some? ==> |m| > 1;
      assert q.Some? ==> |n| > 1;
    }
  }
}
