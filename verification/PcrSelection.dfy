/**
 The textual name of a PCR selection, "sha256:7,11": printed when a policy is
 created and parsed again when the daemon checks whether the policy is stale.
 */
module PcrSelection {
  import opened Bytes

  const PREFIX := "sha256:"

  function DigitChar(d: nat): (c: char)
    requires d < 10
    ensures IsDigit(c) && DigitValue(c) == d
  {
    ('0' as int + d) as char
  }

  predicate IsDigit(c: char) {
    '0' <= c <= '9'
  }

  function DigitValue(c: char): nat
    requires IsDigit(c)
  {
    (c as int) - ('0' as int)
  }

  function Decimal(n: nat): (s: string)
    ensures s != [] && AllDigits(s)
  {
    if n < 10 then [DigitChar(n)] else Decimal(n / 10) + [DigitChar(n % 10)]
  }

  predicate AllDigits(s: string) {
    forall i :: 0 <= i < |s| ==> IsDigit(s[i])
  }

  function Join(parts: seq<string>): string {
    if parts == [] then "" else if |parts| == 1 then parts[0] else parts[0] + "," + Join(parts[1..])
  }

  function Decimals(indices: seq<u32>): (r: seq<string>)
    ensures |r| == |indices|
  {
    if indices == [] then [] else [Decimal(indices[0])] + Decimals(indices[1..])
  }

  /** The name stored with a policy. */
  function SelectionName(indices: seq<u32>): string {
    PREFIX + Join(Decimals(indices))
  }

  // ---------------------------------------------------------------- parsing

  function IndexOf(s: string, c: char): (i: nat)
    ensures i <= |s|
    ensures i < |s| ==> s[i] == c
    ensures forall j :: 0 <= j < i ==> s[j] != c
  {
    if s == [] || s[0] == c then 0 else 1 + IndexOf(s[1..], c)
  }

  function Split(s: string, c: char): (parts: seq<string>)
    ensures parts != []
    decreases |s|
  {
    var i := IndexOf(s, c);
    if i == |s| then [s] else [s[..i]] + Split(s[i + 1..], c)
  }

  predicate IsSpace(c: char) {
    c == ' ' || '\t' <= c <= '\r'
  }

  function Trim(s: string): string {
    if s == [] then s
    else if IsSpace(s[0]) then Trim(s[1..])
    else if IsSpace(s[|s| - 1]) then Trim(s[..|s| - 1])
    else s
  }

  function DigitsValue(s: string): nat
    requires AllDigits(s)
  {
    if s == [] then 0 else DigitsValue(s[..|s| - 1]) * 10 + DigitValue(s[|s| - 1])
  }

  /** Rust's u32 parser: an optional plus sign, at least one digit, no overflow. */
  function ParseU32(s: string): Option<u32> {
    var digits := if s != [] && s[0] == '+' then s[1..] else s;
    if digits == [] || !AllDigits(digits) then None
    else if DigitsValue(digits) >= 0x1_0000_0000 then None
    else Some(DigitsValue(digits))
  }

  function ParseAll(parts: seq<string>): Option<seq<u32>> {
    if parts == [] then Some([])
    else
      var head, tail := ParseU32(Trim(parts[0])), ParseAll(parts[1..]);
      if head == None || tail == None then None else Some([head.value] + tail.value)
  }

  /** The indices named by a selection, or none if the text is malformed. */
  function ParseSelection(selection: string): Option<seq<u32>> {
    var colon := IndexOf(selection, ':');
    if colon == |selection| then None else ParseAll(Split(selection[colon + 1..], ','))
  }

  // ------------------------------------------------------------- properties

  lemma {:induction false} DecimalValue(n: nat)
    ensures DigitsValue(Decimal(n)) == n
  {
    if n < 10 {
      var s := Decimal(n);
      assert s[..0] == [];
      assert DigitsValue(s) == DigitsValue(s[..0]) * 10 + n;
    } else {
      DecimalValue(n / 10);
      var s := Decimal(n);
      assert s[..|s| - 1] == Decimal(n / 10);
    }
  }

  lemma ParseDecimal(n: u32)
    ensures ParseU32(Trim(Decimal(n))) == Some(n)
  {
    var s := Decimal(n);
    DecimalValue(n);
    assert IsDigit(s[0]) && IsDigit(s[|s| - 1]);
    assert Trim(s) == s;
  }

  lemma SplitFirst(part: string, rest: string)
    requires AllDigits(part)
    ensures Split(part + "," + rest, ',') == [part] + Split(rest, ',')
    ensures Split(part, ',') == [part]
  {
    var s := part + "," + rest;
    var i := IndexOf(s, ',');
    assert s[|part|] == ',';
    assert forall j :: 0 <= j < |part| ==> s[j] == part[j] && IsDigit(part[j]);
    assert i == |part|;
    assert s[..i] == part && s[i + 1..] == rest;
    var k := IndexOf(part, ',');
    assert forall j :: 0 <= j < |part| ==> IsDigit(part[j]) && part[j] != ',';
    assert k == |part|;
  }

  lemma {:induction false} SplitJoin(indices: seq<u32>)
    requires indices != []
    ensures Split(Join(Decimals(indices)), ',') == Decimals(indices)
  {
    var parts := Decimals(indices);
    if |indices| == 1 {
      SplitFirst(parts[0], "");
      assert parts == [parts[0]];
    } else {
      SplitJoin(indices[1..]);
      SplitFirst(parts[0], Join(parts[1..]));
      assert parts[1..] == Decimals(indices[1..]);
    }
  }

  lemma ParseFirst(parts: seq<string>, head: u32, tail: seq<u32>)
    requires parts != [] && ParseU32(Trim(parts[0])) == Some(head) && ParseAll(parts[1..]) == Some(tail)
    ensures ParseAll(parts) == Some([head] + tail)
  {
    hide ParseU32, Trim;
  }

  lemma DecimalsFirst(indices: seq<u32>)
    requires indices != []
    ensures Decimals(indices)[0] == Decimal(indices[0]) && Decimals(indices)[1..] == Decimals(indices[1..])
  {
    hide Decimal;
  }

  lemma {:induction false} ParseDecimals(indices: seq<u32>)
    ensures ParseAll(Decimals(indices)) == Some(indices)
  {
    if indices != [] {
      ParseDecimals(indices[1..]);
      ParseDecimal(indices[0]);
      DecimalsFirst(indices);
      hide ParseU32, Trim, Decimal, ParseAll, Decimals;
      ParseFirst(Decimals(indices), indices[0], indices[1..]);
      assert indices == [indices[0]] + indices[1..];
    }
  }

  lemma NameSuffix(indices: seq<u32>)
    ensures ParseSelection(SelectionName(indices)) == ParseAll(Split(Join(Decimals(indices)), ','))
  {
    var name, text := SelectionName(indices), Join(Decimals(indices));
    assert forall j :: 0 <= j < 6 ==> name[j] == PREFIX[j];
    assert name[6] == ':';
    assert IndexOf(name, ':') == 6;
    assert name[7..] == text;
  }

  /** A name is "sha256:" and the indices. The round trip holds exactly for non-empty lists:
      an empty one prints as "sha256:" alone, which does not parse. */
  lemma SelectionRoundTripExactly(indices: seq<u32>)
    ensures |SelectionName(indices)| >= 7 && SelectionName(indices)[..7] == "sha256:"
    ensures ParseSelection(SelectionName(indices)) == Some(indices) <==> indices != []
  {
    NameSuffix(indices);
    if indices != [] {
      SplitJoin(indices);
      ParseDecimals(indices);
    } else {
      SplitFirst("", "");
      assert Trim("") == "";
      assert ParseU32("") == None;
    }
  }
}
