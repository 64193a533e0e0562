/**
 CBOR values as the authenticator exchanges them, and their shortest-form
 encoding (section 3 of RFC 8949). Encoding is a prefix code, and the
 byte-wise order on encoded keys is the canonical order of section 8 of
 FIDO CTAP 2.1.
 */
module Cbor {
  import opened Bytes

  type CborInt = n: int | -0x1_0000_0000_0000_0000 <= n < 0x1_0000_0000_0000_0000

  datatype Value =
    | Integer(n: CborInt)
    | ByteString(bytes: Bytes)
    | Text(utf8: Bytes)
    | Array(items: seq<Value>)
    | Map(entries: seq<Entry>)
    | Bool(b: bool)
    | Null

  datatype Entry = Entry(key: Value, value: Value)

  const LIMIT := 0x1_0000_0000_0000_0000

  /** The initial bytes of a data item: its major type and argument. */
  function Head(major: nat, n: nat): (h: Bytes)
    requires major < 8
    ensures h != [] && h[0] / 32 == major
  {
    if n < 24 then [major * 32 + n]
    else if n < 0x100 then [major * 32 + 24] + ToBigEndian(n, 1)
    else if n < 0x1_0000 then [major * 32 + 25] + ToBigEndian(n, 2)
    else if n < 0x1_0000_0000 then [major * 32 + 26] + ToBigEndian(n, 4)
    else [major * 32 + 27] + ToBigEndian(n, 8)
  }

  function Encode(v: Value): (e: Bytes)
    ensures e != []
    decreases v, 1
  {
    match v
    case Integer(n) => if n >= 0 then Head(0, n) else Head(1, -1 - n)
    case ByteString(bytes) => Head(2, |bytes|) + bytes
    case Text(utf8) => Head(3, |utf8|) + utf8
    case Array(items) => Head(4, |items|) + EncodeItems(items)
    case Map(entries) => Head(5, |entries|) + EncodeEntries(entries)
    case Bool(b) => Head(7, if b then 21 else 20)
    case Null => Head(7, 22)
  }

  function EncodeItems(items: seq<Value>): Bytes
    decreases items, 0
  {
    if items == [] then [] else Encode(items[0]) + EncodeItems(items[1..])
  }

  function EncodeEntries(entries: seq<Entry>): Bytes
    decreases entries, 0
  {
    if entries == [] then [] else EncodeEntry(entries[0]) + EncodeEntries(entries[1..])
  }

  function EncodeEntry(e: Entry): Bytes
    decreases e, 0
  {
    Encode(e.key) + Encode(e.value)
  }

  /** Every length fits the 64-bit argument, as any value in memory does. */
  predicate Sized(v: Value)
    decreases v, 1
  {
    match v
    case ByteString(bytes) => |bytes| < LIMIT
    case Text(utf8) => |utf8| < LIMIT
    case Array(items) => |items| < LIMIT && forall i :: 0 <= i < |items| ==> Sized(items[i])
    case Map(entries) =>
      |entries| < LIMIT && forall i :: 0 <= i < |entries| ==> Sized(entries[i].key) && Sized(entries[i].value)
    case _ => true
  }

  // ---------------------------------------------------------- prefix code

  /** The bytes that follow the initial byte. */
  function Extra(n: nat): nat {
    if n < 24 then 0 else if n < 0x100 then 1 else if n < 0x1_0000 then 2 else if n < 0x1_0000_0000 then 4 else 8
  }

  function Info(n: nat): nat {
    if n < 24 then n else if n < 0x100 then 24 else if n < 0x1_0000 then 25 else if n < 0x1_0000_0000 then 26 else 27
  }

  lemma Powers()
    ensures Pow256(0) == 1 && Pow256(1) == 0x100 && Pow256(2) == 0x1_0000
    ensures Pow256(4) == 0x1_0000_0000 && Pow256(8) == LIMIT
  {
    assert Pow256(3) == 0x100_0000;
    assert Pow256(5) == 0x100_0000_0000;
    assert Pow256(6) == 0x1_0000_0000_0000;
    assert Pow256(7) == 0x100_0000_0000_0000;
  }

  lemma HeadShape(major: nat, n: nat)
    requires major < 8 && n < LIMIT
    ensures Head(major, n) == [major * 32 + Info(n)] + (if n < 24 then [] else ToBigEndian(n, Extra(n)))
    ensures |Head(major, n)| == 1 + Extra(n)
    ensures n >= 24 ==> n < Pow256(Extra(n))
  {
    Powers();
  }

  /** Two heads followed by anything agree only if they are the same head. */
  lemma HeadIsPrefixFree(m: nat, n: nat, s: Bytes, m': nat, n': nat, t: Bytes)
    requires m < 8 && m' < 8 && n < LIMIT && n' < LIMIT
    requires Head(m, n) + s == Head(m', n') + t
    ensures m == m' && n == n' && s == t
  {
    HeadShape(m, n);
    HeadShape(m', n');
    var h, h' := Head(m, n), Head(m', n');
    hide Head, ToBigEndian, Pow256;
    assert (h + s)[0] == m * 32 + Info(n);
    assert (h' + t)[0] == m' * 32 + Info(n');
    assert Info(n) == Info(n') && Extra(n) == Extra(n');
    assert h == (h + s)[..1 + Extra(n)] && h' == (h' + t)[..1 + Extra(n)];
    if n >= 24 {
      assert h[1..] == ToBigEndian(n, Extra(n)) && h'[1..] == ToBigEndian(n', Extra(n));
      ToBigEndianInjective(n, n', Extra(n));
    }
    assert s == (h + s)[1 + Extra(n)..] && t == (h' + t)[1 + Extra(n)..];
  }

  function Major(v: Value): (m: nat)
    ensures m < 8
  {
    match v
    case Integer(n) => if n >= 0 then 0 else 1
    case ByteString(_) => 2
    case Text(_) => 3
    case Array(_) => 4
    case Map(_) => 5
    case _ => 7
  }

  function Argument(v: Value): nat {
    match v
    case Integer(n) => if n >= 0 then n else -1 - n
    case ByteString(bytes) => |bytes|
    case Text(utf8) => |utf8|
    case Array(items) => |items|
    case Map(entries) => |entries|
    case Bool(b) => if b then 21 else 20
    case Null => 22
  }

  function Body(v: Value): Bytes {
    match v
    case ByteString(bytes) => bytes
    case Text(utf8) => utf8
    case Array(items) => EncodeItems(items)
    case Map(entries) => EncodeEntries(entries)
    case _ => []
  }

  lemma EncodeShape(v: Value)
    ensures Encode(v) == Head(Major(v), Argument(v)) + Body(v)
  {
    hide Head;
  }

  /** The encoding is a prefix code: no encoded value is a proper prefix of another,
      and equal encodings come from equal values. */
  lemma {:induction false} EncodeIsPrefixFree(a: Value, s: Bytes, b: Value, t: Bytes)
    requires Sized(a) && Sized(b) && Encode(a) + s == Encode(b) + t
    ensures a == b && s == t
    decreases a, 1
  {
    hide Head, Encode;
    EncodeShape(a);
    EncodeShape(b);
    var h, h' := Head(Major(a), Argument(a)), Head(Major(b), Argument(b));
    assert h + (Body(a) + s) == h' + (Body(b) + t) by {
      assert h + (Body(a) + s) == Encode(a) + s;
      assert h' + (Body(b) + t) == Encode(b) + t;
    }
    HeadIsPrefixFree(Major(a), Argument(a), Body(a) + s, Major(b), Argument(b), Body(b) + t);
    match a
    case Array(items) => ItemsArePrefixFree(items, s, b.items, t);
    case Map(entries) => EntriesArePrefixFree(entries, s, b.entries, t);
    case _ => ConcatSplit(Body(a), s, Body(b), t);
  }

  lemma {:induction false} ItemsArePrefixFree(a: seq<Value>, s: Bytes, b: seq<Value>, t: Bytes)
    requires |a| == |b| && EncodeItems(a) + s == EncodeItems(b) + t
    requires forall i :: 0 <= i < |a| ==> Sized(a[i])
    requires forall i :: 0 <= i < |b| ==> Sized(b[i])
    ensures a == b && s == t
    decreases a, 0
  {
    hide Encode, Sized;
    if a == [] {
      assert EncodeItems(a) + s == s && EncodeItems(b) + t == t;
    } else {
      assert EncodeItems(a) + s == Encode(a[0]) + (EncodeItems(a[1..]) + s);
      assert EncodeItems(b) + t == Encode(b[0]) + (EncodeItems(b[1..]) + t);
      EncodeIsPrefixFree(a[0], EncodeItems(a[1..]) + s, b[0], EncodeItems(b[1..]) + t);
      ItemsArePrefixFree(a[1..], s, b[1..], t);
      assert a == [a[0]] + a[1..] && b == [b[0]] + b[1..];
    }
  }

  lemma {:induction false} EntriesArePrefixFree(a: seq<Entry>, s: Bytes, b: seq<Entry>, t: Bytes)
    requires |a| == |b| && EncodeEntries(a) + s == EncodeEntries(b) + t
    requires forall i :: 0 <= i < |a| ==> Sized(a[i].key) && Sized(a[i].value)
    requires forall i :: 0 <= i < |b| ==> Sized(b[i].key) && Sized(b[i].value)
    ensures a == b && s == t
    decreases a, 0
  {
    hide Encode, EncodeEntry, Sized;
    if a == [] {
      assert EncodeEntries(a) + s == s && EncodeEntries(b) + t == t;
    } else {
      var restA, restB := EncodeEntries(a[1..]) + s, EncodeEntries(b[1..]) + t;
      assert EncodeEntries(a) + s == EncodeEntry(a[0]) + restA;
      assert EncodeEntries(b) + t == EncodeEntry(b[0]) + restB;
      EntryIsPrefixFree(a[0], restA, b[0], restB);
      EntriesArePrefixFree(a[1..], s, b[1..], t);
      assert a == [a[0]] + a[1..] && b == [b[0]] + b[1..];
    }
  }

  lemma {:induction false} EntryIsPrefixFree(a: Entry, s: Bytes, b: Entry, t: Bytes)
    requires Sized(a.key) && Sized(a.value) && Sized(b.key) && Sized(b.value)
    requires EncodeEntry(a) + s == EncodeEntry(b) + t
    ensures a == b && s == t
    decreases a, 0
  {
    hide Encode, Sized;
    assert EncodeEntry(a) + s == Encode(a.key) + (Encode(a.value) + s);
    assert EncodeEntry(b) + t == Encode(b.key) + (Encode(b.value) + t);
    EncodeIsPrefixFree(a.key, Encode(a.value) + s, b.key, Encode(b.value) + t);
    EncodeIsPrefixFree(a.value, s, b.value, t);
  }

  lemma EncodeInjective(a: Value, b: Value)
    requires Sized(a) && Sized(b) && Encode(a) == Encode(b)
    ensures a == b
  {
    assert Encode(a) + [] == Encode(a) && Encode(b) + [] == Encode(b);
    EncodeIsPrefixFree(a, [], b, []);
  }

  // ------------------------------------------------------- canonical order

  predicate IsSimpleKey(v: Value) {
    v.Integer? || v.ByteString? || v.Text?
  }

  /** Section 8 of CTAP 2.1: lower major type first, then the shorter encoding,
      then byte-wise lexical order. */
  predicate CtapLess(a: Value, b: Value) {
    || Major(a) < Major(b)
    || (Major(a) == Major(b)
        && (|Encode(a)| < |Encode(b)| || (|Encode(a)| == |Encode(b)| && Less(Encode(a), Encode(b)))))
  }

  lemma {:induction false} BigEndianOrder(n: nat, n': nat, width: nat, s: Bytes, t: Bytes)
    requires n < n' < Pow256(width)
    ensures Less(ToBigEndian(n, width) + s, ToBigEndian(n', width) + t)
  {
    var p, p' := ToBigEndian(n / 256, width - 1), ToBigEndian(n' / 256, width - 1);
    if n / 256 < n' / 256 {
      BigEndianOrder(n / 256, n' / 256, width - 1, [n % 256] + s, [n' % 256] + t);
      assert ToBigEndian(n, width) + s == p + ([n % 256] + s);
      assert ToBigEndian(n', width) + t == p' + ([n' % 256] + t);
    } else {
      LessAtFirstDifference(p, n % 256, s, n' % 256, t);
    }
  }

  /** A smaller argument sorts first whatever follows the heads. */
  lemma HeadOrder(m: nat, n: nat, n': nat, s: Bytes, t: Bytes)
    requires m < 8 && n < n' < LIMIT
    ensures Less(Head(m, n) + s, Head(m, n') + t)
    ensures |Head(m, n)| <= |Head(m, n')|
  {
    hide Head, ToBigEndian, Pow256, Less;
    HeadShape(m, n);
    HeadShape(m, n');
    var x, y := Head(m, n) + s, Head(m, n') + t;
    assert x[0] == m * 32 + Info(n) && y[0] == m * 32 + Info(n');
    if Info(n) == Info(n') {
      assert n >= 24 && Extra(n) == Extra(n');
      BigEndianOrder(n, n', Extra(n), s, t);
      assert x[1..] == ToBigEndian(n, Extra(n)) + s;
      assert y[1..] == ToBigEndian(n', Extra(n)) + t;
    }
    LessByFirst(x, y);
  }

  lemma LessByFirst(a: Bytes, b: Bytes)
    requires a != [] && b != []
    requires a[0] < b[0] || (a[0] == b[0] && Less(a[1..], b[1..]))
    ensures Less(a, b)
  {
  }

  lemma SameMajorOrder(a: Value, b: Value)
    requires IsSimpleKey(a) && IsSimpleKey(b) && Sized(a) && Sized(b)
    requires Major(a) == Major(b) && Argument(a) < Argument(b)
    ensures Less(Encode(a), Encode(b)) && |Encode(a)| <= |Encode(b)|
  {
    EncodeShape(a);
    EncodeShape(b);
    hide Encode, Head;
    HeadOrder(Major(a), Argument(a), Argument(b), Body(a), Body(b));
  }

  /** On integer, byte-string and text keys, sorting by encoded bytes is sorting in
      the canonical CTAP2 order. */
  lemma KeyOrderIsCanonical(a: Value, b: Value)
    requires IsSimpleKey(a) && IsSimpleKey(b) && Sized(a) && Sized(b)
    ensures Less(Encode(a), Encode(b)) <==> CtapLess(a, b)
  {
    hide Head;
    EncodeShape(a);
    EncodeShape(b);
    hide Encode;
    if Major(a) != Major(b) {
      assert Encode(a)[0] / 32 == Major(a) && Encode(b)[0] / 32 == Major(b);
    } else if Argument(a) < Argument(b) {
      SameMajorOrder(a, b);
    } else if Argument(b) < Argument(a) {
      SameMajorOrder(b, a);
      LessAsymmetric(Encode(b), Encode(a));
    } else {
      assert |Encode(a)| == |Encode(b)|;
    }
  }

  lemma LessAsymmetric(a: Bytes, b: Bytes)
    requires Less(a, b)
    ensures !Less(b, a)
  {
    if Less(b, a) {
      LessTransitive(a, b, a);
      LessIrreflexive(a);
    }
  }

  // --------------------------------------------------------------- reading

  /** The argument that follows the first byte, and whether it needed that many bytes. */
  function ReadArgument(s: Bytes, width: nat): (r: Option<nat>)
    requires 0 < width <= 8 && width < |s|
    ensures r.Some? ==> r.value < LIMIT
  {
    var n := BigEndian(s[1..1 + width]);
    ArgumentBound(s[1..1 + width]);
    var least := if width == 1 then 24 else if width == 2 then 0x100 else if width == 4 then 0x1_0000 else 0x1_0000_0000;
    if n < least then None else Some(n)
  }

  lemma ArgumentBound(s: Bytes)
    requires |s| <= 8
    ensures BigEndian(s) < LIMIT
  {
    hide BigEndian;
    BigEndianBound(s);
    Powers();
    assert Pow256(3) == 0x100_0000;
    assert Pow256(5) == 0x100_0000_0000;
    assert Pow256(6) == 0x1_0000_0000_0000;
    assert Pow256(7) == 0x100_0000_0000_0000;
  }

  /** Reads the initial bytes of a data item, accepting only the shortest form of an
      argument and no reserved or indefinite lengths: major type, argument and what is left
      (section 3 of RFC 8949). */
  function ReadHead(s: Bytes): (r: Option<(nat, nat, Bytes)>)
    ensures r.Some? ==> r.value.1 < LIMIT && |r.value.2| < |s|
  {
    hide ReadArgument, BigEndian;
    if s == [] then None
    else
      var major, info := s[0] / 32, s[0] % 32;
      var width := if info == 24 then 1 else if info == 25 then 2 else if info == 26 then 4 else 8;
      if info < 24 then Some((major, info, s[1..]))
      else if info > 27 || |s| < 1 + width then None
      else
        var n := ReadArgument(s, width);
        if n.None? then None else Some((major, n.value, s[1 + width..]))
  }

  /** Reads one data item from the front of a byte string. */
  function Decode(s: Bytes): (r: Option<(Value, Bytes)>)
    ensures r.Some? ==> |r.value.1| < |s|
    decreases |s|, 0
  {
    var head := ReadHead(s);
    if head.None? then None
    else
      var (major, n, rest) := head.value;
      if major == 0 then Some((Integer(n), rest))
      else if major == 1 then Some((Integer(-1 - n), rest))
      else if major == 2 || major == 3 then
        if |rest| < n then None
        else Some((if major == 2 then ByteString(rest[..n]) else Text(rest[..n]), rest[n..]))
      else if major == 4 then
        var items := DecodeItems(n, rest);
        if items.None? then None else Some((Array(items.value.0), items.value.1))
      else if major == 5 then
        var entries := DecodeEntries(n, rest);
        if entries.None? then None else Some((Map(entries.value.0), entries.value.1))
      else if major == 7 && n == 20 then Some((Bool(false), rest))
      else if major == 7 && n == 21 then Some((Bool(true), rest))
      else if major == 7 && n == 22 then Some((Null, rest))
      else None
  }

  function DecodeItems(n: nat, s: Bytes): (r: Option<(seq<Value>, Bytes)>)
    ensures r.Some? ==> |r.value.1| <= |s|
    decreases |s|, n + 1
  {
    if n == 0 then Some(([], s))
    else
      var first := Decode(s);
      if first.None? then None
      else
        var others := DecodeItems(n - 1, first.value.1);
        if others.None? then None else Some(([first.value.0] + others.value.0, others.value.1))
  }

  function DecodeEntries(n: nat, s: Bytes): (r: Option<(seq<Entry>, Bytes)>)
    ensures r.Some? ==> |r.value.1| <= |s|
    decreases |s|, n + 1
  {
    if n == 0 then Some(([], s))
    else
      var key := Decode(s);
      if key.None? then None
      else
        var value := Decode(key.value.1);
        if value.None? then None
        else
          var others := DecodeEntries(n - 1, value.value.1);
          if others.None? then None
          else Some(([Entry(key.value.0, value.value.0)] + others.value.0, others.value.1))
  }

  lemma HeadRoundTrip(major: nat, n: nat, rest: Bytes)
    requires major < 8 && n < LIMIT
    ensures ReadHead(Head(major, n) + rest) == Some((major, n, rest))
  {
    HeadShape(major, n);
    Powers();
    var s := Head(major, n) + rest;
    hide Head, ToBigEndian, Pow256, BigEndian;
    assert s[0] == major * 32 + Info(n);
    assert s[0] / 32 == major && s[0] % 32 == Info(n);
    assert s[1 + Extra(n)..] == rest;
    if n >= 24 {
      assert s[1..1 + Extra(n)] == ToBigEndian(n, Extra(n));
      BigEndianRoundTrip(n, Extra(n));
    }
  }

  /** The reader gives back every encoded value, and what follows it. */
  lemma {:induction false} DecodeEncode(v: Value, rest: Bytes)
    requires Sized(v)
    ensures Decode(Encode(v) + rest) == Some((v, rest))
    decreases v, 1
  {
    EncodeShape(v);
    hide Head, Encode, ReadHead, EncodeItems, EncodeEntries, DecodeItems, DecodeEntries;
    var h, body := Head(Major(v), Argument(v)), Body(v);
    assert Encode(v) + rest == h + (body + rest);
    HeadRoundTrip(Major(v), Argument(v), body + rest);
    match v
    case Array(items) => DecodeEncodedItems(items, rest);
    case Map(entries) => DecodeEncodedEntries(entries, rest);
    case ByteString(bytes) => assert (bytes + rest)[..|bytes|] == bytes && (bytes + rest)[|bytes|..] == rest;
    case Text(utf8) => assert (utf8 + rest)[..|utf8|] == utf8 && (utf8 + rest)[|utf8|..] == rest;
    case _ => assert body + rest == rest;
  }

  lemma {:induction false} DecodeEncodedItems(items: seq<Value>, rest: Bytes)
    requires forall i :: 0 <= i < |items| ==> Sized(items[i])
    ensures DecodeItems(|items|, EncodeItems(items) + rest) == Some((items, rest))
    decreases items, 0
  {
    hide Encode, Decode, Sized;
    if items == [] {
      assert EncodeItems(items) + rest == rest;
    } else {
      assert EncodeItems(items) + rest == Encode(items[0]) + (EncodeItems(items[1..]) + rest);
      DecodeEncode(items[0], EncodeItems(items[1..]) + rest);
      DecodeEncodedItems(items[1..], rest);
      assert items == [items[0]] + items[1..];
    }
  }

  lemma {:induction false} DecodeEncodedEntries(entries: seq<Entry>, rest: Bytes)
    requires forall i :: 0 <= i < |entries| ==> Sized(entries[i].key) && Sized(entries[i].value)
    ensures DecodeEntries(|entries|, EncodeEntries(entries) + rest) == Some((entries, rest))
    decreases entries, 0
  {
    hide Encode, Decode, Sized;
    if entries == [] {
      assert EncodeEntries(entries) + rest == rest;
    } else {
      var tail := EncodeEntries(entries[1..]) + rest;
      assert EncodeEntries(entries) + rest == Encode(entries[0].key) + (Encode(entries[0].value) + tail);
      DecodeEncodedEntry(entries[0], tail);
      DecodeEncodedEntries(entries[1..], rest);
      assert entries == [entries[0]] + entries[1..];
    }
  }

  lemma {:induction false} DecodeEncodedEntry(e: Entry, rest: Bytes)
    requires Sized(e.key) && Sized(e.value)
    ensures Decode(Encode(e.key) + (Encode(e.value) + rest)) == Some((e.key, Encode(e.value) + rest))
    ensures Decode(Encode(e.value) + rest) == Some((e.value, rest))
    decreases e, 0
  {
    DecodeEncode(e.key, Encode(e.value) + rest);
    DecodeEncode(e.value, rest);
  }
}
