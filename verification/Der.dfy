/**
 The DER form of an ECDSA signature: SEQUENCE { r INTEGER, s INTEGER } with
 single-byte lengths, built from the two big-endian numbers the TPM returns,
 and an independent strict reader for it (sections 8.3 and 10.1 of X.690,
 section 2.2.3 of RFC 3279).
 */
module Der {
  import opened Bytes

  const INTEGER_TAG := 0x02
  const SEQUENCE_TAG := 0x30

  // ------------------------------------------------------------ the encoder

  function StripZeros(value: Bytes): (r: Bytes)
    ensures r != [] ==> r[0] != 0
    ensures |r| <= |value|
  {
    if value != [] && value[0] == 0 then StripZeros(value[1..]) else value
  }

  /** The content octets of the INTEGER for a big-endian magnitude. */
  function Content(value: Bytes): (c: Bytes)
    ensures 1 <= |c| <= |value| + 1
    ensures c[0] < 0x80
    ensures |c| > 1 && c[0] == 0 ==> c[1] >= 0x80
  {
    var magnitude := if StripZeros(value) == [] then [0] else StripZeros(value);
    if magnitude[0] >= 0x80 then [0] + magnitude else magnitude
  }

  function DerInteger(value: Bytes): (der: Bytes)
    ensures |der| == 2 + |Content(value)|
  {
    [INTEGER_TAG, |Content(value)| % 256] + Content(value)
  }

  function EcdsaDer(r: Bytes, s: Bytes): Bytes {
    var body := DerInteger(r) + DerInteger(s);
    [SEQUENCE_TAG, |body| % 256] + body
  }

  method EncodeInteger(value: Bytes) returns (der: Bytes)
    ensures der == DerInteger(value)
  {
    var firstNonzero := 0;
    while firstNonzero < |value| && value[firstNonzero] == 0
      invariant 0 <= firstNonzero <= |value|
      invariant StripZeros(value) == StripZeros(value[firstNonzero..])
    {
      assert value[firstNonzero..][1..] == value[firstNonzero + 1..];
      firstNonzero := firstNonzero + 1;
    }
    var integer := if firstNonzero == |value| then [0] else value[firstNonzero..];
    if integer[0] >= 0x80 {
      integer := [0] + integer;
    }
    der := [INTEGER_TAG];
    der := der + [|integer| % 256];
    der := der + integer;
  }

  method EncodeSignature(r: Bytes, s: Bytes) returns (der: Bytes)
    ensures der == EcdsaDer(r, s)
  {
    var rDer := EncodeInteger(r);
    var sDer := EncodeInteger(s);
    der := [SEQUENCE_TAG];
    der := der + [(|rDer| + |sDer|) % 256];
    der := der + rDer;
    der := der + sDer;
  }

  // ------------------------------------------------------------- the reader

  /** Reads one minimal, non-negative INTEGER in short form; `None` for anything else. */
  function ReadInteger(input: Bytes): (r: Option<(nat, Bytes)>) {
    if |input| < 2 || input[0] != INTEGER_TAG then None
    else
      var length := input[1];
      if length == 0 || length >= 0x80 || |input| < 2 + length then None
      else
        var content := input[2..2 + length];
        if content[0] >= 0x80 || (length > 1 && content[0] == 0 && content[1] < 0x80) then None
        else Some((BigEndian(content), input[2 + length..]))
  }

  /** Reads a signature that must fill the input exactly. */
  function ReadSignature(input: Bytes): (r: Option<(nat, nat)>) {
    if |input| < 2 || input[0] != SEQUENCE_TAG || input[1] >= 0x80 || |input| != 2 + input[1] then None
    else
      var first := ReadInteger(input[2..]);
      if first == None then None
      else
        var second := ReadInteger(first.value.1);
        if second == None || second.value.1 != [] then None
        else Some((first.value.0, second.value.0))
  }

  // ------------------------------------------------------------- properties

  lemma {:induction false} LeadingZero(t: Bytes)
    ensures BigEndian([0] + t) == BigEndian(t)
  {
    if t == [] {
      assert ([0] + t)[..0] == [];
      assert BigEndian(([0] + t)[..0]) == 0;
    } else {
      LeadingZero(t[..|t| - 1]);
      assert ([0] + t)[..|t|] == [0] + t[..|t| - 1];
    }
  }

  lemma {:induction false} StripZerosKeepsValue(value: Bytes)
    ensures BigEndian(StripZeros(value)) == BigEndian(value)
  {
    if value != [] && value[0] == 0 {
      StripZerosKeepsValue(value[1..]);
      LeadingZero(value[1..]);
      assert value == [0] + value[1..];
    }
  }

  lemma ContentValue(value: Bytes)
    ensures BigEndian(Content(value)) == BigEndian(value)
  {
    StripZerosKeepsValue(value);
    LeadingZero([]);
    assert [0] + [] == [0];
    var magnitude := if StripZeros(value) == [] then [0] else StripZeros(value);
    LeadingZero(magnitude);
  }

  /** A magnitude without leading zeros needs exactly as many bytes as its value. */
  lemma {:induction false} MagnitudeBounds(s: Bytes)
    requires s != [] && s[0] != 0
    ensures Pow256(|s| - 1) <= BigEndian(s) < Pow256(|s|)
  {
    var t := s[..|s| - 1];
    if t == [] {
      assert BigEndian(t) == 0;
    } else {
      MagnitudeBounds(t);
    }
  }

  lemma {:induction false} Pow256Monotone(a: nat, b: nat)
    requires a <= b
    ensures Pow256(a) <= Pow256(b)
    decreases b
  {
    if a < b {
      Pow256Monotone(a, b - 1);
    }
  }

  lemma EmptyValue()
    ensures BigEndian([]) == 0
  {
  }

  lemma StripZerosUnique(a: Bytes, b: Bytes)
    requires BigEndian(a) == BigEndian(b)
    ensures StripZeros(a) == StripZeros(b)
  {
    hide StripZeros, Pow256, BigEndian, ToBigEndian;
    assert BigEndian([]) == 0 by { EmptyValue(); }
    var x, y := StripZeros(a), StripZeros(b);
    StripZerosKeepsValue(a);
    StripZerosKeepsValue(b);
    if x != [] { MagnitudeBounds(x); }
    if y != [] { MagnitudeBounds(y); }
    if |x| < |y| {
      Pow256Monotone(|x|, |y| - 1);
    } else if |y| < |x| {
      Pow256Monotone(|y|, |x| - 1);
    }
    ToBigEndianOfValue(x);
    ToBigEndianOfValue(y);
  }

  /** The encoding of an INTEGER depends on its value alone, and determines it. */
  lemma IntegersEqualExactly(a: Bytes, b: Bytes)
    ensures DerInteger(a) == DerInteger(b) <==> BigEndian(a) == BigEndian(b)
  {
    if BigEndian(a) == BigEndian(b) {
      StripZerosUnique(a, b);
    } else if DerInteger(a) == DerInteger(b) {
      assert DerInteger(a)[2..] == Content(a) && DerInteger(b)[2..] == Content(b);
      ContentValue(a);
      ContentValue(b);
    }
  }

  lemma IntegerRoundTrip(value: Bytes, rest: Bytes)
    requires |DerInteger(value)| <= 127
    ensures ReadInteger(DerInteger(value) + rest) == Some((BigEndian(value), rest))
  {
    var input := DerInteger(value) + rest;
    var length := |Content(value)|;
    assert input[1] == length;
    assert input[2..2 + length] == Content(value);
    assert input[2 + length..] == rest;
    ContentValue(value);
  }

  /** The exact condition under which the output is the DER of (r, s): its two
      INTEGERs together fit the single-byte length. */
  lemma SignatureRoundTripExactly(r: Bytes, s: Bytes)
    ensures ReadSignature(EcdsaDer(r, s)) == Some((BigEndian(r), BigEndian(s)))
            <==> |DerInteger(r)| + |DerInteger(s)| <= 127
  {
    hide DerInteger, ReadInteger, BigEndian, Content;
    var body := DerInteger(r) + DerInteger(s);
    var der := EcdsaDer(r, s);
    assert der[2..] == body;
    if |body| <= 127 {
      IntegerRoundTrip(r, DerInteger(s));
      IntegerRoundTrip(s, []);
      assert DerInteger(s) + [] == DerInteger(s);
    } else {
      assert der[1] < 0x80 ==> |der| != 2 + der[1];
    }
  }

  /** Numbers of at most 60 bytes always encode to a readable signature; the 32-byte
      numbers of P-256 to one of at most 72 bytes. */
  lemma SignatureRoundTrip(r: Bytes, s: Bytes)
    requires |r| <= 60 && |s| <= 60
    ensures ReadSignature(EcdsaDer(r, s)) == Some((BigEndian(r), BigEndian(s)))
    ensures |r| <= 32 && |s| <= 32 ==> |EcdsaDer(r, s)| <= 72
  {
    SignatureRoundTripExactly(r, s);
  }

  lemma SignaturesEqualExactly(r: Bytes, s: Bytes, r': Bytes, s': Bytes)
    requires |r| <= 60 && |s| <= 60 && |r'| <= 60 && |s'| <= 60
    ensures EcdsaDer(r, s) == EcdsaDer(r', s')
            <==> BigEndian(r) == BigEndian(r') && BigEndian(s) == BigEndian(s')
  {
    SignatureRoundTrip(r, s);
    SignatureRoundTrip(r', s');
    IntegersEqualExactly(r, r');
    IntegersEqualExactly(s, s');
  }
}
