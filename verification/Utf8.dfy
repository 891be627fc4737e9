// The table-driven UTF-8 validator and the grammar of section 4 of RFC 3629.
module Utf8 {
  import opened Bytes

  const UTF8_ACCEPT := 0
  const UTF8_REJECT := 1

  // The flat 400-entry table in rows of 16: byte classes, then transitions.
  const UTF8D: seq<seq<byte>> := [
    [0, 0, 0, 0, 0, 0, 0, 0, 0, 0, 0, 0, 0, 0, 0, 0],  // 00..0F
    [0, 0, 0, 0, 0, 0, 0, 0, 0, 0, 0, 0, 0, 0, 0, 0],  // 10..1F
    [0, 0, 0, 0, 0, 0, 0, 0, 0, 0, 0, 0, 0, 0, 0, 0],  // 20..2F
    [0, 0, 0, 0, 0, 0, 0, 0, 0, 0, 0, 0, 0, 0, 0, 0],  // 30..3F
    [0, 0, 0, 0, 0, 0, 0, 0, 0, 0, 0, 0, 0, 0, 0, 0],  // 40..4F
    [0, 0, 0, 0, 0, 0, 0, 0, 0, 0, 0, 0, 0, 0, 0, 0],  // 50..5F
    [0, 0, 0, 0, 0, 0, 0, 0, 0, 0, 0, 0, 0, 0, 0, 0],  // 60..6F
    [0, 0, 0, 0, 0, 0, 0, 0, 0, 0, 0, 0, 0, 0, 0, 0],  // 70..7F
    [1, 1, 1, 1, 1, 1, 1, 1, 1, 1, 1, 1, 1, 1, 1, 1],  // 80..8F
    [9, 9, 9, 9, 9, 9, 9, 9, 9, 9, 9, 9, 9, 9, 9, 9],  // 90..9F
    [7, 7, 7, 7, 7, 7, 7, 7, 7, 7, 7, 7, 7, 7, 7, 7],  // A0..AF
    [7, 7, 7, 7, 7, 7, 7, 7, 7, 7, 7, 7, 7, 7, 7, 7],  // B0..BF
    [8, 8, 2, 2, 2, 2, 2, 2, 2, 2, 2, 2, 2, 2, 2, 2],  // C0..CF
    [2, 2, 2, 2, 2, 2, 2, 2, 2, 2, 2, 2, 2, 2, 2, 2],  // D0..DF
    [10, 3, 3, 3, 3, 3, 3, 3, 3, 3, 3, 3, 3, 4, 3, 3],  // E0..EF
    [11, 6, 6, 6, 5, 8, 8, 8, 8, 8, 8, 8, 8, 8, 8, 8],  // F0..FF
    [0, 1, 2, 3, 5, 8, 7, 1, 1, 1, 4, 6, 1, 1, 1, 1],  // state 0
    [1, 1, 1, 1, 1, 1, 1, 1, 1, 1, 1, 1, 1, 1, 1, 1],  // state 1
    [1, 0, 1, 1, 1, 1, 1, 0, 1, 0, 1, 1, 1, 1, 1, 1],  // state 2
    [1, 2, 1, 1, 1, 1, 1, 2, 1, 2, 1, 1, 1, 1, 1, 1],  // state 3
    [1, 1, 1, 1, 1, 1, 1, 2, 1, 1, 1, 1, 1, 1, 1, 1],  // state 4
    [1, 2, 1, 1, 1, 1, 1, 1, 1, 2, 1, 1, 1, 1, 1, 1],  // state 5
    [1, 1, 1, 1, 1, 1, 1, 3, 1, 3, 1, 1, 1, 1, 1, 1],  // state 6
    [1, 3, 1, 1, 1, 1, 1, 3, 1, 3, 1, 1, 1, 1, 1, 1],  // state 7
    [1, 3, 1, 1, 1, 1, 1, 1, 1, 1, 1, 1, 1, 1, 1, 1]  // state 8
  ]

  function Utf8d(i: nat): byte
    requires i < 400
  {
    UTF8D[i / 16][i % 16]
  }

  /* ----- The grammar ----- */

  predicate IsTail(b: byte) { 0x80 <= b <= 0xBF }

  // UTF8-1 to UTF8-4.
  predicate IsChar(s: seq<byte>) {
    match |s|
    case 1 => s[0] <= 0x7F
    case 2 => 0xC2 <= s[0] <= 0xDF && IsTail(s[1])
    case 3 =>
      && IsTail(s[2])
      && (|| (s[0] == 0xE0 && 0xA0 <= s[1] <= 0xBF)
          || (0xE1 <= s[0] <= 0xEC && IsTail(s[1]))
          || (s[0] == 0xED && 0x80 <= s[1] <= 0x9F)
          || (0xEE <= s[0] <= 0xEF && IsTail(s[1])))
    case 4 =>
      && IsTail(s[2]) && IsTail(s[3])
      && (|| (s[0] == 0xF0 && 0x90 <= s[1] <= 0xBF)
          || (0xF1 <= s[0] <= 0xF3 && IsTail(s[1]))
          || (s[0] == 0xF4 && 0x80 <= s[1] <= 0x8F))
    case _ => false
  }

  ghost predicate AllChars(chars: seq<seq<byte>>) {
    forall i | 0 <= i < |chars| :: IsChar(chars[i])
  }

  // UTF8-octets: any number of characters, one after the other.
  ghost predicate WellFormed(s: seq<byte>) {
    exists chars: seq<seq<byte>> :: AllChars(chars) && Concat(chars) == s
  }

  /* ----- Characters are the encodings of Unicode scalar values ----- */

  predicate IsScalar(v: nat) { v < 0xD800 || 0xE000 <= v <= 0x10FFFF }

  // The table of section 3 of RFC 3629, shortest form.
  function EncodeScalar(v: nat): seq<byte>
    requires IsScalar(v)
  {
    if v < 0x80 then [v]
    else if v < 0x800 then [0xC0 + v / 64, 0x80 + v % 64]
    else if v < 0x1_0000 then [0xE0 + v / 4096, 0x80 + v / 64 % 64, 0x80 + v % 64]
    else [0xF0 + v / 262144, 0x80 + v / 4096 % 64, 0x80 + v / 64 % 64, 0x80 + v % 64]
  }

  function DecodeChar(s: seq<byte>): int
    requires IsChar(s)
  {
    var lead: int, second: int, third: int, fourth: int :=
      s[0], if |s| > 1 then s[1] else 0, if |s| > 2 then s[2] else 0, if |s| > 3 then s[3] else 0;
    if |s| == 1 then lead
    else if |s| == 2 then (lead - 0xC0) * 64 + (second - 0x80)
    else if |s| == 3 then (lead - 0xE0) * 4096 + (second - 0x80) * 64 + (third - 0x80)
    else (lead - 0xF0) * 262144 + (second - 0x80) * 4096 + (third - 0x80) * 64 + (fourth - 0x80)
  }

  lemma EncodeIsChar(v: nat)
    requires IsScalar(v)
    ensures IsChar(EncodeScalar(v))
  {
  }

  // Three base-64 digits below a leading one.
  lemma Digits(a: int, b: int, c: int, d: int)
    requires 0 <= a && 0 <= b < 64 && 0 <= c < 64 && 0 <= d < 64
    ensures var v := a * 262144 + b * 4096 + c * 64 + d;
      v / 262144 == a && v / 4096 == a * 64 + b && v / 4096 % 64 == b && v / 64 % 64 == c && v % 64 == d
  {
    var v := a * 262144 + b * 4096 + c * 64 + d;
    assert v / 64 == a * 4096 + b * 64 + c;
    assert v / 4096 == a * 64 + b;
  }

  lemma DecodePair(s: seq<byte>)
    requires |s| == 2 && IsChar(s)
    ensures DecodeChar(s) >= 0 && IsScalar(DecodeChar(s)) && EncodeScalar(DecodeChar(s)) == s
  {
    Digits(0, 0, s[0] - 0xC0, s[1] - 0x80);
  }

  lemma DecodeTriple(s: seq<byte>)
    requires |s| == 3 && IsChar(s)
    ensures DecodeChar(s) >= 0 && IsScalar(DecodeChar(s)) && EncodeScalar(DecodeChar(s)) == s
  {
    Digits(0, s[0] - 0xE0, s[1] - 0x80, s[2] - 0x80);
  }

  lemma DecodeQuadruple(s: seq<byte>)
    requires |s| == 4 && IsChar(s)
    ensures DecodeChar(s) >= 0 && IsScalar(DecodeChar(s)) && EncodeScalar(DecodeChar(s)) == s
  {
    Digits(s[0] - 0xF0, s[1] - 0x80, s[2] - 0x80, s[3] - 0x80);
  }

  lemma DecodeIsScalar(s: seq<byte>)
    requires IsChar(s)
    ensures DecodeChar(s) >= 0 && IsScalar(DecodeChar(s)) && EncodeScalar(DecodeChar(s)) == s
  {
    if |s| == 2 {
      DecodePair(s);
    } else if |s| == 3 {
      DecodeTriple(s);
    } else if |s| == 4 {
      DecodeQuadruple(s);
    }
  }

  // No overlong form, no surrogate, nothing above U+10FFFF, and nothing missing.
  lemma CharIffScalar(s: seq<byte>)
    ensures IsChar(s) <==> exists v: nat :: IsScalar(v) && EncodeScalar(v) == s
  {
    if IsChar(s) {
      DecodeIsScalar(s);
    }
    forall v: nat | IsScalar(v) && EncodeScalar(v) == s ensures IsChar(s) {
      EncodeIsChar(v);
    }
  }

  /* ----- What the table says ----- */

  function ClassOf(b: byte): nat {
    if b < 0x80 then 0
    else if b < 0x90 then 1
    else if b < 0xA0 then 9
    else if b < 0xC0 then 7
    else if b < 0xC2 then 8
    else if b < 0xE0 then 2
    else if b == 0xE0 then 10
    else if b == 0xED then 4
    else if b < 0xF0 then 3
    else if b == 0xF0 then 11
    else if b < 0xF4 then 6
    else if b == 0xF4 then 5
    else 8
  }

  function Next(state: nat, cls: nat): nat {
    match state
    case 0 =>
      (match cls case 0 => 0 case 2 => 2 case 3 => 3 case 4 => 5 case 5 => 8
                 case 6 => 7 case 10 => 4 case 11 => 6 case _ => 1)
    case 2 => if cls == 1 || cls == 7 || cls == 9 then 0 else 1
    case 3 => if cls == 1 || cls == 7 || cls == 9 then 2 else 1
    case 4 => if cls == 7 then 2 else 1
    case 5 => if cls == 1 || cls == 9 then 2 else 1
    case 6 => if cls == 7 || cls == 9 then 3 else 1
    case 7 => if cls == 1 || cls == 7 || cls == 9 then 3 else 1
    case 8 => if cls == 1 then 3 else 1
    case _ => 1
  }

  lemma LowClassEntry(r: nat, c: nat)
    requires r < 12 && c < 16
    ensures Utf8d(16 * r + c) == ClassOf(16 * r + c)
  {
    assert (16 * r + c) / 16 == r && (16 * r + c) % 16 == c;
  }

  lemma HighClassEntry(r: nat, c: nat)
    requires 12 <= r < 16 && c < 16
    ensures Utf8d(16 * r + c) == ClassOf(16 * r + c)
  {
    assert (16 * r + c) / 16 == r && (16 * r + c) % 16 == c;
  }

  lemma ClassEntry(b: byte)
    ensures Utf8d(b) == ClassOf(b)
  {
    if b < 192 {
      LowClassEntry(b / 16, b % 16);
    } else {
      HighClassEntry(b / 16, b % 16);
    }
  }

  lemma NextEntry(state: nat, cls: nat)
    requires state < 9 && cls < 16
    ensures Utf8d(256 + state * 16 + cls) == Next(state, cls)
  {
    assert (256 + state * 16 + cls) / 16 == 16 + state;
    assert (256 + state * 16 + cls) % 16 == cls;
    if state < 5 {
    } else {
    }
  }

  // What one iteration of the loop reads from the table.
  lemma TableEntry(state: nat, b: byte)
    requires state < 9
    ensures Utf8d(b) == ClassOf(b) < 16
    ensures Utf8d(256 + state * 16 + ClassOf(b)) == Delta(state, b)
  {
    ClassEntry(b);
    NextEntry(state, ClassOf(b));
  }

  function Delta(state: nat, b: byte): (next: nat)
    ensures next < 9
  {
    Next(state, ClassOf(b))
  }

  function Run(state: nat, s: seq<byte>): (end: nat)
    requires state < 9
    ensures end < 9
    decreases s
  {
    if s == [] then state else Run(Delta(state, s[0]), s[1..])
  }

  /* ----- What each state still expects ----- */

  function Missing(state: nat): nat {
    match state
    case 0 => 0
    case 2 => 1
    case 3 => 2
    case 4 => 2
    case 5 => 2
    case _ => 3
  }

  // t finishes a character begun by the bytes that lead to this state.
  predicate Finishes(state: nat, t: seq<byte>)
    requires |t| == Missing(state)
  {
    match state
    case 0 => true
    case 2 => IsTail(t[0])
    case 3 => IsTail(t[0]) && IsTail(t[1])
    case 4 => 0xA0 <= t[0] <= 0xBF && IsTail(t[1])
    case 5 => 0x80 <= t[0] <= 0x9F && IsTail(t[1])
    case 6 => 0x90 <= t[0] <= 0xBF && IsTail(t[1]) && IsTail(t[2])
    case 7 => IsTail(t[0]) && IsTail(t[1]) && IsTail(t[2])
    case 8 => 0x80 <= t[0] <= 0x8F && IsTail(t[1]) && IsTail(t[2])
    case _ => false
  }

  ghost predicate Expects(state: nat, s: seq<byte>) {
    var n := Missing(state);
    |s| >= n && Finishes(state, s[..n]) && WellFormed(s[n..])
  }

  lemma WellFormedEmpty()
    ensures WellFormed([])
  {
    assert AllChars([]) && Concat<byte>([]) == [];
  }

  lemma WellFormedPrepend(c: seq<byte>, s: seq<byte>)
    requires IsChar(c) && WellFormed(s)
    ensures WellFormed(c + s)
  {
    var chars: seq<seq<byte>> :| AllChars(chars) && Concat(chars) == s;
    var all := [c] + chars;
    assert all[0] == c && all[1..] == chars;
    assert AllChars(all);
  }

  lemma WellFormedSplit(s: seq<byte>) returns (n: nat)
    requires WellFormed(s) && s != []
    ensures 1 <= n <= 4 && n <= |s| && IsChar(s[..n]) && WellFormed(s[n..])
  {
    var chars: seq<seq<byte>> :| AllChars(chars) && Concat(chars) == s;
    n := |chars[0]|;
    assert s[..n] == chars[0] && s[n..] == Concat(chars[1..]);
    assert AllChars(chars[1..]);
  }

  // A byte leads a character exactly when the rest finishes what it began.
  lemma LeadByte(c: seq<byte>)
    requires c != []
    ensures IsChar(c) <==> |c| == Missing(Delta(0, c[0])) + 1 && Finishes(Delta(0, c[0]), c[1..])
  {
  }

  // Outside a character the next byte must begin one.
  lemma FirstByte(s: seq<byte>)
    requires s != []
    ensures WellFormed(s) <==> Expects(Delta(0, s[0]), s[1..])
  {
    var n := Missing(Delta(0, s[0]));
    if WellFormed(s) {
      var k := WellFormedSplit(s);
      LeadByte(s[..k]);
      assert s[1..][..n] == s[..k][1..] && s[1..][n..] == s[k..];
    }
    if |s| > n {
      var c, rest := s[..n + 1], s[n + 1..];
      assert s[1..][..n] == c[1..] && s[1..][n..] == rest && c + rest == s;
      LeadByte(c);
      if IsChar(c) && WellFormed(rest) {
        WellFormedPrepend(c, rest);
      }
    }
  }

  // Inside a character the next byte must continue it.
  lemma LaterByte(q: nat, s: seq<byte>)
    requires 2 <= q < 9 && s != []
    ensures Expects(q, s) <==> Expects(Delta(q, s[0]), s[1..])
  {
    var n, m := Missing(q), Missing(Delta(q, s[0]));
    if |s| >= n {
      assert s[1..][..n - 1] == s[..n][1..] && s[1..][n - 1..] == s[n..];
    }
  }

  lemma {:induction false} RunExpects(q: nat, s: seq<byte>)
    requires q < 9
    ensures Run(q, s) == UTF8_ACCEPT <==> Expects(q, s)
    decreases s
  {
    if s == [] {
      WellFormedEmpty();
    } else {
      RunExpects(Delta(q, s[0]), s[1..]);
      if q == 0 {
        FirstByte(s);
        assert s[..0] == [] && s[0..] == s;
      } else if q != UTF8_REJECT {
        LaterByte(q, s);
      }
    }
  }

  // The automaton accepts exactly the language of the grammar.
  lemma AutomatonCorrect(s: seq<byte>)
    ensures Run(UTF8_ACCEPT, s) == UTF8_ACCEPT <==> WellFormed(s)
  {
    RunExpects(0, s);
    assert s[..0] == [] && s[0..] == s;
  }

  lemma {:induction false} RunAppend(q: nat, s: seq<byte>, b: byte)
    requires q < 9
    ensures Run(q, s + [b]) == Delta(Run(q, s), b)
    decreases s
  {
    if s != [] {
      RunAppend(Delta(q, s[0]), s[1..], b);
      assert (s + [b])[1..] == s[1..] + [b];
    }
  }

  lemma {:induction false} RejectIsFinal(s: seq<byte>)
    ensures Run(UTF8_REJECT, s) == UTF8_REJECT
  {
    if s != [] {
      RejectIsFinal(s[1..]);
    }
  }

  lemma {:induction false} RunConcat(q: nat, s: seq<byte>, t: seq<byte>)
    requires q < 9
    ensures Run(q, s + t) == Run(Run(q, s), t)
    decreases s
  {
    if s == [] {
      assert s + t == t;
    } else {
      RunConcat(Delta(q, s[0]), s[1..], t);
      assert (s + t)[1..] == s[1..] + t;
    }
  }

  // Text cut anywhere: well-formed pieces join up to well-formed text.
  lemma WellFormedConcat(s: seq<byte>, t: seq<byte>)
    requires WellFormed(s)
    ensures WellFormed(s + t) <==> WellFormed(t)
  {
    AutomatonCorrect(s);
    AutomatonCorrect(t);
    AutomatonCorrect(s + t);
    RunConcat(0, s, t);
  }

  lemma RunPrefix(s: seq<byte>, i: nat)
    requires i < |s|
    ensures Run(UTF8_ACCEPT, s[..i + 1]) == Delta(Run(UTF8_ACCEPT, s[..i]), s[i])
  {
    assert s[..i + 1] == s[..i] + [s[i]];
    RunAppend(UTF8_ACCEPT, s[..i], s[i]);
  }

  // Leaving the loop early changes nothing: no continuation is accepted.
  lemma RejectedPrefix(s: seq<byte>, i: nat)
    requires i <= |s| && Run(UTF8_ACCEPT, s[..i]) == UTF8_REJECT
    ensures !WellFormed(s)
  {
    assert s == s[..i] + s[i..];
    RunConcat(UTF8_ACCEPT, s[..i], s[i..]);
    RejectIsFinal(s[i..]);
    AutomatonCorrect(s);
  }

  method ValidateUtf8(str: array<byte>, start: nat, len: nat) returns (valid: bool)
    requires start + len <= str.Length
    ensures valid <==> WellFormed(str[start..start + len])
  {
    ghost var text := str[start..start + len];
    var state := UTF8_ACCEPT;
    for i := 0 to len
      invariant state < 9 && state == Run(UTF8_ACCEPT, text[..i])
    {
      TableEntry(state, text[i]);
      RunPrefix(text, i);
      var cls := Utf8d(str[start + i]);
      state := Utf8d(256 + state * 16 + cls);
      if state == UTF8_REJECT {
        RejectedPrefix(text, i + 1);
        return false;
      }
    }
    assert text[..len] == text;
    AutomatonCorrect(text);
    valid := state == UTF8_ACCEPT;
  }
}
