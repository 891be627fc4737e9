// Octets, exclusive or, big-endian numbers and the masking transform of
// section 5.3 of RFC 6455.
module Bytes {
  type byte = x: int | 0 <= x < 256
  type uint8 = byte
  type int8 = x: int | -128 <= x < 128
  type int32 = x: int | -0x8000_0000 <= x < 0x8000_0000
  type int64 = x: int | -0x8000_0000_0000_0000 <= x < 0x8000_0000_0000_0000
  type uint64 = x: int | 0 <= x < 0x1_0000_0000_0000_0000

  // A complete masking key and the part of one that has arrived so far.
  type Mask = k: seq<byte> | |k| == 4 witness [0, 0, 0, 0]
  type PartialMask = k: seq<byte> | |k| < 4 witness []

  datatype Option<+T> = None | Some(value: T)

  function Pow2(n: nat): (p: nat)
    ensures p >= 1
  {
    if n == 0 then 1 else 2 * Pow2(n - 1)
  }

  // Exclusive or of the low n binary digits.
  function XorBits(a: nat, b: nat, n: nat): (r: nat)
    ensures r < Pow2(n)
  {
    if n == 0 then 0 else (a + b) % 2 + 2 * XorBits(a / 2, b / 2, n - 1)
  }

  function Xor(a: byte, b: byte): byte {
    assert Pow2(8) == 256;
    XorBits(a, b, 8)
  }

  lemma LowDigit(d: nat, rest: nat, b: nat)
    requires d < 2
    ensures (d + 2 * rest + b) % 2 == (d + b) % 2
    ensures (d + 2 * rest) / 2 == rest
  {
  }

  lemma DigitTwice(a: nat, b: nat)
    ensures ((a + b) % 2 + b) % 2 == a % 2
  {
  }

  lemma {:induction false} XorBitsTwice(a: nat, b: nat, n: nat)
    requires a < Pow2(n)
    ensures XorBits(XorBits(a, b, n), b, n) == a
  {
    if n != 0 {
      var d, rest := (a + b) % 2, XorBits(a / 2, b / 2, n - 1);
      calc {
        XorBits(d + 2 * rest, b, n);
        (d + 2 * rest + b) % 2 + 2 * XorBits((d + 2 * rest) / 2, b / 2, n - 1);
        { LowDigit(d, rest, b); }
        (d + b) % 2 + 2 * XorBits(rest, b / 2, n - 1);
        { DigitTwice(a, b); XorBitsTwice(a / 2, b / 2, n - 1); }
        a % 2 + 2 * (a / 2);
      }
    }
  }

  lemma XorTwice(a: byte, b: byte)
    ensures Xor(Xor(a, b), b) == a
  {
    assert Pow2(8) == 256;
    XorBitsTwice(a, b, 8);
  }

  function Digit(x: nat, i: nat): nat {
    if i == 0 then x % 2 else Digit(x / 2, i - 1)
  }

  lemma {:induction false} DigitIs(x: nat, i: nat)
    ensures Digit(x, i) == x / Pow2(i) % 2
  {
    if i > 0 {
      DigitIs(x / 2, i - 1);
      HalfFirst(x, Pow2(i - 1));
    }
  }

  lemma FirstDigit(d: nat, rest: nat, i: nat)
    requires d < 2
    ensures Digit(d + 2 * rest, i) == if i == 0 then d else Digit(rest, i - 1)
  {
    LowDigit(d, rest, 0);
  }

  lemma OddSum(x: nat, y: nat)
    ensures (x + y) % 2 == 1 <==> x % 2 != y % 2
  {
  }

  lemma {:induction false} XorBitsDigit(a: nat, b: nat, n: nat, i: nat)
    requires i < n
    ensures Digit(XorBits(a, b, n), i) == 1 <==> Digit(a, i) != Digit(b, i)
  {
    var d, rest := (a + b) % 2, XorBits(a / 2, b / 2, n - 1);
    assert XorBits(a, b, n) == d + 2 * rest;
    FirstDigit(d, rest, i);
    hide XorBits;
    if i == 0 {
      OddSum(a, b);
    } else {
      XorBitsDigit(a / 2, b / 2, n - 1, i - 1);
    }
  }

  lemma HalfFirst(x: nat, p: nat)
    requires p > 0
    ensures x / (2 * p) == x / 2 / p
  {
    var q, r := x / 2 / p, x / 2 % p;
    assert x == 2 * p * q + (2 * r + x % 2);
    assert 0 <= 2 * r + x % 2 < 2 * p;
    QuotientIs(x, 2 * p, q, 2 * r + x % 2);
  }

  lemma QuotientIs(x: nat, d: nat, q: nat, r: nat)
    requires d > 0 && r < d && x == d * q + r
    ensures x / d == q
  {
    var k := x / d - q;
    assert d * k == r - x % d;
    assert k >= 1 ==> d * k >= d;
    assert k <= -1 ==> d * k <= 0 - d;
  }

  lemma XorDigit(a: byte, b: byte, i: nat, p: nat)
    requires i < 8 && p == Pow2(i)
    ensures Xor(a, b) / p % 2 == 1 <==> a / p % 2 != b / p % 2
  {
    hide XorBits, Pow2, Digit;
    XorBitsDigit(a, b, 8, i);
    DigitIs(a, i);
    DigitIs(b, i);
    DigitIs(Xor(a, b), i);
  }

  lemma Pow2Values()
    ensures Pow2(0) == 1 && Pow2(1) == 2 && Pow2(2) == 4 && Pow2(3) == 8
    ensures Pow2(4) == 16 && Pow2(5) == 32 && Pow2(6) == 64 && Pow2(7) == 128
  {
  }

  // Each binary digit is set if and only if exactly one of the two is.
  lemma XorDigits(a: byte, b: byte)
    ensures forall p | p in {1, 2, 4, 8, 16, 32, 64, 128} :: Xor(a, b) / p % 2 == 1 <==> a / p % 2 != b / p % 2
  {
    Pow2Values();
    hide Xor, Pow2;
    forall p | p in {1, 2, 4, 8, 16, 32, 64, 128} ensures Xor(a, b) / p % 2 == 1 <==> a / p % 2 != b / p % 2 {
      XorDigit(a, b, if p == 1 then 0 else if p == 2 then 1 else if p == 4 then 2 else if p == 8 then 3
                     else if p == 16 then 4 else if p == 32 then 5 else if p == 64 then 6 else 7, p);
    }
  }

  function Differ(a: byte, b: byte, p: nat): nat
    requires p > 0
  {
    if a / p % 2 != b / p % 2 then 1 else 0
  }

  // The same, as a sum.
  lemma XorValue(a: byte, b: byte)
    ensures Xor(a, b)
         == Differ(a, b, 1) + 2 * Differ(a, b, 2) + 4 * Differ(a, b, 4) + 8 * Differ(a, b, 8)
            + 16 * Differ(a, b, 16) + 32 * Differ(a, b, 32) + 64 * Differ(a, b, 64) + 128 * Differ(a, b, 128)
  {
    XorDigits(a, b);
    var x := Xor(a, b);
    hide Xor;
    assert x / 1 % 2 == Differ(a, b, 1) && x / 2 % 2 == Differ(a, b, 2);
    assert x / 4 % 2 == Differ(a, b, 4) && x / 8 % 2 == Differ(a, b, 8);
    assert x / 16 % 2 == Differ(a, b, 16) && x / 32 % 2 == Differ(a, b, 32);
    assert x / 64 % 2 == Differ(a, b, 64) && x / 128 % 2 == Differ(a, b, 128);
    hide Differ;
    SumOfDigits(x);
  }

  lemma SumOfDigits(x: byte)
    ensures x == x / 1 % 2 + 2 * (x / 2 % 2) + 4 * (x / 4 % 2) + 8 * (x / 8 % 2)
                 + 16 * (x / 16 % 2) + 32 * (x / 32 % 2) + 64 * (x / 64 % 2) + 128 * (x / 128 % 2)
  {
    assert x / 4 == x / 2 / 2 && x / 8 == x / 4 / 2 && x / 16 == x / 8 / 2;
    assert x / 32 == x / 16 / 2 && x / 64 == x / 32 / 2 && x / 128 == x / 64 / 2;
  }

  // Octet i of the payload is combined with octet i modulo 4 of the key.
  function Unmask(key: Mask, s: seq<byte>): (r: seq<byte>)
    ensures |r| == |s|
  {
    seq(|s|, i requires 0 <= i < |s| => Xor(s[i], key[i % 4]))
  }

  lemma UnmaskTwice(key: Mask, s: seq<byte>)
    ensures Unmask(key, Unmask(key, s)) == s
  {
    forall i | 0 <= i < |s| ensures Unmask(key, Unmask(key, s))[i] == s[i] {
      XorTwice(s[i], key[i % 4]);
    }
  }

  lemma UnmaskAppend(key: Mask, s: seq<byte>, b: byte)
    ensures Unmask(key, s + [b]) == Unmask(key, s) + [Xor(b, key[|s| % 4])]
  {
  }

  // Digit by digit, octet i is combined with octet i modulo 4 of the key.
  lemma UnmaskDigits(key: Mask, s: seq<byte>, i: nat)
    requires i < |s|
    ensures forall p | p in {1, 2, 4, 8, 16, 32, 64, 128} ::
      Unmask(key, s)[i] / p % 2 == 1 <==> s[i] / p % 2 != key[i % 4] / p % 2
  {
    XorDigits(s[i], key[i % 4]);
  }

  function Pow256(n: nat): (p: nat)
    ensures p >= 1
  {
    if n == 0 then 1 else 256 * Pow256(n - 1)
  }

  // The number written in network byte order.
  function BigEndian(s: seq<byte>): (n: nat)
    ensures n < Pow256(|s|)
  {
    if s == [] then 0 else 256 * BigEndian(s[..|s| - 1]) + s[|s| - 1]
  }

  function ToBigEndian(n: nat, width: nat): (s: seq<byte>)
    ensures |s| == width
  {
    if width == 0 then [] else ToBigEndian(n / 256, width - 1) + [n % 256]
  }

  lemma {:induction false} BigEndianRoundTrip(n: nat, width: nat)
    requires n < Pow256(width)
    ensures BigEndian(ToBigEndian(n, width)) == n
  {
    if width != 0 {
      QuotientBelow(n, Pow256(width - 1));
      BigEndianRoundTrip(n / 256, width - 1);
      var s, high := ToBigEndian(n, width), ToBigEndian(n / 256, width - 1);
      assert s == high + [n % 256] && s[..|s| - 1] == high;
      hide ToBigEndian, Pow256;
    }
  }

  lemma QuotientBelow(n: nat, p: nat)
    requires n < 256 * p
    ensures n / 256 < p
  {
  }

  // The first octet is the most significant.
  lemma {:induction false} BigEndianFirst(a: byte, s: seq<byte>)
    ensures BigEndian([]) == 0 && BigEndian([a] + s) == a * Pow256(|s|) + BigEndian(s)
  {
    var t := [a] + s;
    if s != [] {
      var n := |s| - 1;
      var high, last := s[..n], s[n];
      assert t[..n + 1] == [a] + high && t[n + 1] == last;
      BigEndianFirst(a, high);
      Shifted(a, Pow256(n), BigEndian(high), last);
    }
  }

  lemma Shifted(a: nat, p: nat, n: nat, last: nat)
    ensures 256 * (a * p + n) + last == a * (256 * p) + (256 * n + last)
  {
  }

  // The two widths of a length field, written out.
  lemma BigEndianValues(s: seq<byte>)
    ensures |s| == 2 ==> BigEndian(s) == 0x100 * (s[0] as int) + s[1]
    ensures |s| == 8 ==>
      BigEndian(s) == 0x100_0000_0000_0000 * (s[0] as int) + 0x1_0000_0000_0000 * (s[1] as int)
                      + 0x100_0000_0000 * (s[2] as int) + 0x1_0000_0000 * (s[3] as int)
                      + 0x100_0000 * (s[4] as int) + 0x1_0000 * (s[5] as int) + 0x100 * (s[6] as int) + s[7]
  {
    if |s| == 2 {
      BigEndianLast(s);
      BigEndianLast(s[..1]);
    } else if |s| == 8 {
      BigEndianLast(s);
      BigEndianLast(s[..7]);
      BigEndianLast(s[..6]);
      BigEndianLast(s[..5]);
      BigEndianLast(s[..4]);
      BigEndianLast(s[..3]);
      BigEndianLast(s[..2]);
      BigEndianLast(s[..1]);
    }
  }

  lemma BigEndianLast(s: seq<byte>)
    requires s != []
    ensures BigEndian(s) == 256 * BigEndian(s[..|s| - 1]) + s[|s| - 1]
    ensures forall k | 0 <= k < |s| :: s[..|s| - 1][..k] == s[..k]
    ensures BigEndian([]) == 0
  {
  }

  lemma Pow256Values()
    ensures Pow256(2) == 0x1_0000
    ensures Pow256(8) == 0x1_0000_0000_0000_0000
  {
    assert Pow256(4) == 0x1_0000_0000;
  }

  function Concat<T>(ss: seq<seq<T>>): seq<T> {
    if ss == [] then [] else ss[0] + Concat(ss[1..])
  }

  lemma {:induction false} ConcatAppend<T>(ss: seq<seq<T>>, ts: seq<seq<T>>)
    ensures Concat(ss + ts) == Concat(ss) + Concat(ts)
  {
    if ss == [] {
      assert ss + ts == ts;
    } else {
      calc {
        Concat(ss + ts);
        { assert (ss + ts)[0] == ss[0] && (ss + ts)[1..] == ss[1..] + ts; }
        ss[0] + Concat(ss[1..] + ts);
        { ConcatAppend(ss[1..], ts); }
        ss[0] + (Concat(ss[1..]) + Concat(ts));
        (ss[0] + Concat(ss[1..])) + Concat(ts);
        Concat(ss) + Concat(ts);
      }
    }
  }
}
