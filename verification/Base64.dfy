// The encoder of src/base64.h and the decoding of section 4 of RFC 4648.
module Base64 {
  import opened Bytes

  // A to Z, a to z, 0 to 9, + and /, in ASCII, in rows of 16.
  const ENCODING_TABLE: seq<seq<byte>> := [
    [65, 66, 67, 68, 69, 70, 71, 72, 73, 74, 75, 76, 77, 78, 79, 80],
    [81, 82, 83, 84, 85, 86, 87, 88, 89, 90, 97, 98, 99, 100, 101, 102],
    [103, 104, 105, 106, 107, 108, 109, 110, 111, 112, 113, 114, 115, 116, 117, 118],
    [119, 120, 121, 122, 48, 49, 50, 51, 52, 53, 54, 55, 56, 57, 43, 47]
  ]
  const PAD: byte := 61
  const MOD_TABLE: seq<nat> := [0, 2, 1]

  type Digit = d: int | 0 <= d < 64
  type Triple = t: int | 0 <= t < 0x100_0000

  /* ----- Decoding ----- */

  // The value of a character of the alphabet, or 64.
  function ValueOf(c: byte): nat {
    if 65 <= c <= 90 then c - 65
    else if 97 <= c <= 122 then c - 71
    else if 48 <= c <= 57 then c + 4
    else if c == 43 then 62
    else if c == 47 then 63
    else 64
  }

  function Join(a: Digit, b: Digit, c: Digit, d: Digit): Triple {
    a * 262144 + b * 4096 + c * 64 + d
  }

  // Four characters of which the last pads are padding; unused bits are zero.
  function DecodeGroup(s: seq<byte>, pads: nat): Option<seq<byte>>
    requires |s| == 4 && pads <= 2
  {
    var v0, v1 := ValueOf(s[0]), ValueOf(s[1]);
    var v2, v3 := if pads == 2 then 0 else ValueOf(s[2]), if pads >= 1 then 0 else ValueOf(s[3]);
    if v0 == 64 || v1 == 64 || v2 == 64 || v3 == 64 then None
    else
      var t := Join(v0, v1, v2, v3);
      if pads == 0 then Some([t / 65536, t / 256 % 256, t % 256])
      else if pads == 1 then (if t % 256 == 0 then Some([t / 65536, t / 256 % 256]) else None)
      else if t % 65536 == 0 then Some([t / 65536]) else None
  }

  function Pads(s: seq<byte>): nat
    requires |s| == 4
  {
    if s[3] != PAD then 0 else if s[2] != PAD then 1 else 2
  }

  // Padding is allowed in the last group only.
  function Decode(s: seq<byte>): Option<seq<byte>> {
    if s == [] then Some([])
    else if |s| < 4 then None
    else if |s| == 4 then DecodeGroup(s, Pads(s))
    else match DecodeGroup(s[..4], 0)
      case None => None
      case Some(bytes) =>
        match Decode(s[4..])
        case None => None
        case Some(rest) => Some(bytes + rest)
  }

  /* ----- Encoding ----- */

  function Alphabet(d: Digit): byte {
    ENCODING_TABLE[d / 16][d % 16]
  }

  lemma AlphabetRow(r: nat, c: nat)
    requires r < 4 && c < 16
    ensures ValueOf(ENCODING_TABLE[r][c]) == 16 * r + c && ENCODING_TABLE[r][c] != PAD
  {
  }

  lemma AlphabetValue(d: Digit)
    ensures ValueOf(Alphabet(d)) == d && Alphabet(d) != PAD
  {
    AlphabetRow(d / 16, d % 16);
  }

  // Missing octets count as zero.
  function Octets(s: seq<byte>): Triple
    requires 0 < |s|
  {
    var a: int, b: int, c: int := s[0], if |s| > 1 then s[1] else 0, if |s| > 2 then s[2] else 0;
    a * 65536 + b * 256 + c
  }

  function Group(t: Triple): (g: seq<byte>)
    ensures |g| == 4
  {
    [Alphabet(t / 262144), Alphabet(t / 4096 % 64), Alphabet(t / 64 % 64), Alphabet(t % 64)]
  }

  // Every three octets become four characters, and so do the last one or two.
  function Raw(s: seq<byte>): seq<byte> {
    if s == [] then [] else Group(Octets(s)) + (if |s| <= 3 then [] else Raw(s[3..]))
  }

  function Padded(s: seq<byte>, pads: nat): seq<byte>
    requires pads <= |s|
  {
    s[..|s| - pads] + seq(pads, _ => PAD)
  }

  lemma {:induction false} RawLength(s: seq<byte>)
    ensures |Raw(s)| == 4 * ((|s| + 2) / 3)
  {
    hide Group;
    if |s| > 3 {
      RawLength(s[3..]);
      assert (|s| - 3 + 2) / 3 == (|s| + 2) / 3 - 1;
    }
  }

  function Encode(s: seq<byte>): seq<byte> {
    RawLength(s);
    assert s != [] ==> (|s| + 2) / 3 >= 1;
    Padded(Raw(s), MOD_TABLE[|s| % 3])
  }

  /* ----- Encoding and decoding are inverse to each other ----- */

  lemma JoinDigits(a: Digit, b: Digit, c: Digit, d: Digit)
    ensures var t := Join(a, b, c, d);
      t / 262144 == a && t / 4096 % 64 == b && t / 64 % 64 == c && t % 64 == d
  {
    var t := Join(a, b, c, d);
    assert t / 64 == a * 4096 + b * 64 + c;
    assert t / 4096 == a * 64 + b;
  }

  lemma DigitsJoin(t: Triple)
    ensures Join(t / 262144, t / 4096 % 64, t / 64 % 64, t % 64) == t
  {
    assert t / 4096 == t / 64 / 64 && t / 262144 == t / 4096 / 64;
  }

  lemma OctetsJoin(a: byte, b: byte, c: byte)
    ensures var t := Octets([a, b, c]); t / 65536 == a && t / 256 % 256 == b && t % 256 == c
  {
    assert Octets([a, b, c]) / 256 == (a as int) * 256 + b;
  }

  lemma JoinOctets(t: Triple)
    ensures Octets([t / 65536, t / 256 % 256, t % 256]) == t
  {
    assert t / 65536 == t / 256 / 256;
  }

  lemma ValueRow(r: nat, c: nat, b: byte)
    requires r < 4 && c < 16 && ValueOf(b) == 16 * r + c
    ensures ENCODING_TABLE[r][c] == b
  {
  }

  lemma ValueAlphabet(b: byte)
    requires ValueOf(b) < 64
    ensures Alphabet(ValueOf(b)) == b
  {
    ValueRow(ValueOf(b) / 16, ValueOf(b) % 16, b);
  }

  lemma GroupValues(t: Triple)
    ensures ValueOf(Group(t)[0]) == t / 262144 && ValueOf(Group(t)[1]) == t / 4096 % 64
    ensures ValueOf(Group(t)[2]) == t / 64 % 64 && ValueOf(Group(t)[3]) == t % 64
    ensures PAD !in Group(t)
  {
    AlphabetValue(t / 262144);
    AlphabetValue(t / 4096 % 64);
    AlphabetValue(t / 64 % 64);
    AlphabetValue(t % 64);
  }

  lemma ZeroDigits(t: Triple)
    ensures t % 256 == 0 ==> t % 64 == 0
    ensures t % 65536 == 0 ==> t % 256 == 0 && t / 64 % 64 == 0
  {
    if t % 256 == 0 {
      var q := t / 256;
      assert t == 64 * (4 * q);
    }
    if t % 65536 == 0 {
      var q := t / 65536;
      assert t == 256 * (256 * q) == 64 * (64 * (16 * q));
      assert t / 64 == 64 * (16 * q);
    }
  }

  lemma GroupDecodes(t: Triple, pads: nat)
    requires pads <= 2 && (pads >= 1 ==> t % 256 == 0) && (pads == 2 ==> t % 65536 == 0)
    ensures Pads(Padded(Group(t), pads)) == pads
    ensures DecodeGroup(Padded(Group(t), pads), pads) == Some([t / 65536, t / 256 % 256, t % 256][..3 - pads])
  {
    GroupValues(t);
    DigitsJoin(t);
    ZeroDigits(t);
    hide Group, ValueOf, Join;
    var g, p := Group(t), Padded(Group(t), pads);
    assert p[0] == g[0] && p[1] == g[1];
    if pads == 0 {
      assert p == g;
      assert [t / 65536, t / 256 % 256, t % 256][..3] == [t / 65536, t / 256 % 256, t % 256];
    } else if pads == 1 {
      assert p[2] == g[2] && p[3] == PAD;
      assert [t / 65536, t / 256 % 256, t % 256][..2] == [t / 65536, t / 256 % 256];
    } else {
      assert p[2] == PAD && p[3] == PAD;
      assert [t / 65536, t / 256 % 256, t % 256][..1] == [t / 65536];
    }
  }

  lemma GroupEncodes(g: seq<byte>, pads: nat)
    requires |g| == 4 && pads <= 2 && DecodeGroup(g, pads).Some? && Pads(g) == pads
    ensures var bytes := DecodeGroup(g, pads).value;
      |bytes| == 3 - pads && Padded(Group(Octets(bytes)), pads) == g
  {
    var bytes := DecodeGroup(g, pads).value;
    var v0, v1 := ValueOf(g[0]), ValueOf(g[1]);
    var v2, v3 := if pads == 2 then 0 else ValueOf(g[2]), if pads >= 1 then 0 else ValueOf(g[3]);
    var t := Join(v0, v1, v2, v3);
    ValueAlphabet(g[0]);
    ValueAlphabet(g[1]);
    if pads < 2 {
      ValueAlphabet(g[2]);
    }
    if pads < 1 {
      ValueAlphabet(g[3]);
    }
    JoinDigits(v0, v1, v2, v3);
    JoinOctets(t);
    assert Octets(bytes) == t;
  }

  lemma EncodeFirst(s: seq<byte>)
    requires |s| > 3
    ensures Encode(s) == Group(Octets(s[..3])) + Encode(s[3..])
  {
    hide Group;
    RawLength(s);
    RawLength(s[3..]);
    assert (|s| - 3) % 3 == |s| % 3;
    assert Raw(s) == Group(Octets(s[..3])) + Raw(s[3..]);
  }

  lemma EncodeLast(s: seq<byte>)
    requires 0 < |s| <= 3
    ensures Encode(s) == Padded(Group(Octets(s)), 3 - |s|)
  {
  }

  lemma {:induction false} DecodeEncode(s: seq<byte>)
    ensures Decode(Encode(s)) == Some(s)
  {
    hide Group, DecodeGroup;
    if s == [] {
    } else if |s| <= 3 {
      EncodeLast(s);
      var a, b, c := s[0], if |s| > 1 then s[1] else 0, if |s| > 2 then s[2] else 0;
      OctetsJoin(a, b, c);
      GroupDecodes(Octets(s), 3 - |s|);
      assert s == [a, b, c][..|s|];
    } else {
      EncodeFirst(s);
      var t, rest := Octets(s[..3]), Encode(s[3..]);
      OctetsJoin(s[0], s[1], s[2]);
      assert s[..3] == [s[0], s[1], s[2]];
      GroupDecodes(t, 0);
      assert Padded(Group(t), 0) == Group(t);
      RawLength(s[3..]);
      assert |rest| >= 4;
      assert [t / 65536, t / 256 % 256, t % 256][..3] == s[..3];
      assert (Group(t) + rest)[..4] == Group(t) && (Group(t) + rest)[4..] == rest;
      DecodeEncode(s[3..]);
      assert s == s[..3] + s[3..];
    }
  }

  // Only the encoding of a byte string decodes to it.
  lemma {:induction false} EncodeDecode(x: seq<byte>)
    requires Decode(x).Some?
    ensures Encode(Decode(x).value) == x
  {
    hide Group, DecodeGroup, Octets;
    if x == [] {
    } else if |x| == 4 {
      GroupEncodes(x, Pads(x));
      EncodeLast(Decode(x).value);
    } else {
      var bytes, rest := DecodeGroup(x[..4], 0).value, Decode(x[4..]).value;
      FullGroup(x[..4]);
      GroupEncodes(x[..4], 0);
      EncodeDecode(x[4..]);
      var s := bytes + rest;
      assert s[..3] == bytes && s[3..] == rest;
      EncodeFirst(s);
      assert Padded(Group(Octets(bytes)), 0) == Group(Octets(bytes));
      assert x == x[..4] + x[4..];
    }
  }

  // A group decoded without padding contains none.
  lemma FullGroup(g: seq<byte>)
    requires |g| == 4 && DecodeGroup(g, 0).Some?
    ensures Pads(g) == 0
  {
  }

  lemma EncodeLength(s: seq<byte>)
    ensures |Encode(s)| == 4 * ((|s| + 2) / 3)
    ensures forall i | 0 <= i < |Encode(s)| ::
      Encode(s)[i] == PAD <==> i >= |Encode(s)| - MOD_TABLE[|s| % 3]
  {
    RawLength(s);
    RawHasNoPad(s);
  }

  lemma {:induction false} RawHasNoPad(s: seq<byte>)
    ensures PAD !in Raw(s)
  {
    if s != [] {
      GroupValues(Octets(s));
      if |s| > 3 {
        RawHasNoPad(s[3..]);
      }
    }
  }

  lemma GroupJoined(a: Digit, b: Digit, c: Digit, d: Digit)
    ensures Group(Join(a, b, c, d)) == [Alphabet(a), Alphabet(b), Alphabet(c), Alphabet(d)]
  {
    JoinDigits(a, b, c, d);
    hide Join;
  }

  lemma LettersUsed()
    ensures Alphabet(25) == 90 && Alphabet(32) == 103 && Alphabet(38) == 109 && Alphabet(60) == 56
    ensures Alphabet(61) == 57 && Alphabet(47) == 118 && Alphabet(24) == 89 && Alphabet(5) == 70 && Alphabet(50) == 121
  {
  }

  // The vectors of section 10 of RFC 4648 for "f", "fo", "foo" and "foobar".
  lemma ShortVectors()
    ensures Encode([0x66]) == [90, 103, 61, 61]
    ensures Encode([0x66, 0x6f]) == [90, 109, 56, 61]
  {
    LettersUsed();
    GroupJoined(25, 32, 0, 0);
    GroupJoined(25, 38, 60, 0);
    EncodeLast([0x66]);
    EncodeLast([0x66, 0x6f]);
    assert Octets([0x66]) == Join(25, 32, 0, 0) && Octets([0x66, 0x6f]) == Join(25, 38, 60, 0);
    hide Encode, Group, Alphabet, Octets, Join;
  }

  lemma TripleVectors()
    ensures Encode([0x66, 0x6f, 0x6f]) == [90, 109, 57, 118]
    ensures Encode([0x62, 0x61, 0x72]) == [89, 109, 70, 121]
  {
    LettersUsed();
    GroupJoined(25, 38, 61, 47);
    GroupJoined(24, 38, 5, 50);
    EncodeLast([0x66, 0x6f, 0x6f]);
    EncodeLast([0x62, 0x61, 0x72]);
    assert Octets([0x66, 0x6f, 0x6f]) == Join(25, 38, 61, 47) && Octets([0x62, 0x61, 0x72]) == Join(24, 38, 5, 50);
    hide Encode, Group, Alphabet, Octets, Join;
  }

  lemma LongVector()
    ensures Encode([0x66, 0x6f, 0x6f, 0x62, 0x61, 0x72]) == [90, 109, 57, 118, 89, 109, 70, 121]
  {
    var foo, bar: seq<byte> := [0x66, 0x6f, 0x6f], [0x62, 0x61, 0x72];
    var s := foo + bar;
    assert s[..3] == foo && s[3..] == bar && s == [0x66, 0x6f, 0x6f, 0x62, 0x61, 0x72];
    TripleVectors();
    EncodeLast(foo);
    EncodeFirst(s);
    hide Encode, Group, Alphabet, Octets;
    assert Padded(Group(Octets(foo)), 0) == Group(Octets(foo));
  }

  /* ----- The loops ----- */

  method WriteGroup(encodedData: array<byte>, j: nat, triple: Triple)
    requires j + 4 <= encodedData.Length
    modifies encodedData
    ensures encodedData[..j + 4] == old(encodedData[..j]) + Group(triple)
    ensures forall k | j + 4 <= k < encodedData.Length :: encodedData[k] == old(encodedData[k])
  {
    encodedData[j] := Alphabet(triple / 262144 % 64);
    encodedData[j + 1] := Alphabet(triple / 4096 % 64);
    encodedData[j + 2] := Alphabet(triple / 64 % 64);
    encodedData[j + 3] := Alphabet(triple % 64);
    hide Alphabet;
    assert triple / 262144 % 64 == triple / 262144;
    assert encodedData[..j] == old(encodedData[..j]) && encodedData[j..j + 4] == Group(triple);
    assert encodedData[..j + 4] == encodedData[..j] + encodedData[j..j + 4];
  }

  lemma RawStep(s: seq<byte>, i: nat, next: nat)
    requires i < |s| && next == (if i + 3 <= |s| then i + 3 else |s|)
    ensures Raw(s[i..]) == Group(Octets(s[i..])) + Raw(s[next..])
    ensures |Raw(s[i..])| == 4 + |Raw(s[next..])|
  {
    hide Group, Octets;
    if |s| - i > 3 {
      assert s[i..][3..] == s[next..];
    } else {
      assert s[next..] == [];
    }
  }

  // One turn of the loop; s is the input.
  method EncodeOne(data: array<byte>, encodedData: array<byte>, i: nat, j: nat, inputLength: nat, ghost s: seq<byte>)
    returns (next: nat)
    requires i < inputLength == |s| <= data.Length && data != encodedData && data[..inputLength] == s
    requires |Raw(s)| <= encodedData.Length && j <= encodedData.Length && encodedData[..j] + Raw(s[i..]) == Raw(s)
    modifies encodedData
    ensures i < next <= inputLength && j + 4 <= |Raw(s)|
    ensures encodedData[..j + 4] + Raw(s[next..]) == Raw(s)
    ensures forall k | |Raw(s)| <= k < encodedData.Length :: encodedData[k] == old(encodedData[k])
  {
    hide Group, Raw, Octets;
    var triple;
    triple, next := NextTriple(data, i, inputLength);
    RawStep(s, i, next);
    ghost var done := encodedData[..j];
    assert done + (Group(triple) + Raw(s[next..])) == (done + Group(triple)) + Raw(s[next..]);
    assert j + |Raw(s[i..])| == |Raw(s)|;
    WriteGroup(encodedData, j, triple);
  }

  method Base64Encode(data: array<byte>, encodedData: array<byte>, inputLength: nat)
    requires inputLength <= data.Length && data != encodedData
    requires 4 * ((inputLength + 2) / 3) <= encodedData.Length
    modifies encodedData
    ensures encodedData[..4 * ((inputLength + 2) / 3)] == Encode(data[..inputLength])
    ensures forall k | 4 * ((inputLength + 2) / 3) <= k < encodedData.Length :: encodedData[k] == old(encodedData[k])
  {
    var outputLength := 4 * ((inputLength + 2) / 3);
    ghost var s := data[..inputLength];
    RawLength(s);
    hide Group, Raw, Octets, Encode;
    var i, j := 0, 0;
    assert s[0..] == s && encodedData[..0] == [];
    while i < inputLength
      invariant i <= inputLength && j <= outputLength && data[..inputLength] == s
      invariant encodedData[..j] + Raw(s[i..]) == Raw(s)
      invariant forall k | outputLength <= k < encodedData.Length :: encodedData[k] == old(encodedData[k])
    {
      i := EncodeOne(data, encodedData, i, j, inputLength, s);
      j := j + 4;
    }
    EmptyRaw(s[i..]);
    assert encodedData[..j] == Raw(s);
    FinishPadding(encodedData, outputLength, inputLength, s);
  }

  lemma EmptyRaw(s: seq<byte>)
    requires s == []
    ensures Raw(s) == []
  {
  }

  // The octets from i on, at most three; missing ones count as zero.
  method NextTriple(data: array<byte>, from: nat, inputLength: nat) returns (triple: Triple, i: nat)
    requires from < inputLength <= data.Length
    ensures i == if from + 3 <= inputLength then from + 3 else inputLength
    ensures triple == Octets(data[..inputLength][from..])
  {
    i := from;
    var octetA: int, octetB: int, octetC: int := 0, 0, 0;
    octetA, i := data[i], i + 1;
    if i < inputLength {
      octetB, i := data[i], i + 1;
    }
    if i < inputLength {
      octetC, i := data[i], i + 1;
    }
    triple := octetA * 65536 + octetB * 256 + octetC;
  }

  method FinishPadding(encodedData: array<byte>, outputLength: nat, inputLength: nat, ghost s: seq<byte>)
    requires inputLength == |s| && outputLength == |Raw(s)| <= encodedData.Length
    requires encodedData[..outputLength] == Raw(s)
    modifies encodedData
    ensures encodedData[..outputLength] == Encode(s)
    ensures forall k | outputLength <= k < encodedData.Length :: encodedData[k] == old(encodedData[k])
  {
    var i := 0;
    while i < MOD_TABLE[inputLength % 3]
      invariant i <= MOD_TABLE[inputLength % 3] <= outputLength
      invariant encodedData[..outputLength] == Padded(Raw(s), i)
      invariant forall k | outputLength <= k < encodedData.Length :: encodedData[k] == old(encodedData[k])
    {
      encodedData[outputLength - 1 - i] := PAD;
      i := i + 1;
    }
  }
}