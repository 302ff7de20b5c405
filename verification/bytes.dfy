/** Byte strings as Rust's `str` sees them: the byte-wise lexicographic order that
    `str::cmp` uses, prefixes, and the UTF-8 validity that `read_line` insists on. */
module ByteStrings {

  type byte = b: int | 0 <= b < 256
  type Bytes = seq<byte>

  const NEWLINE: byte := 10

  /** Text of this model's own literals (field names, "null"), one byte a character. */
  function Ascii(s: string): Bytes {
    seq(|s|, i requires 0 <= i < |s| => (s[i] as int % 256) as byte)
  }

  // ---------------------------------------------------------------- order

  /** Strict lexicographic order, bytes compared as unsigned numbers. */
  predicate Less(a: Bytes, b: Bytes) {
    if b == [] then false
    else if a == [] then true
    else a[0] < b[0] || (a[0] == b[0] && Less(a[1..], b[1..]))
  }

  predicate AtMost(a: Bytes, b: Bytes) {
    !Less(b, a)
  }

  lemma {:induction false} LessIrreflexive(a: Bytes)
    ensures !Less(a, a)
  {
    if a != [] {
      LessIrreflexive(a[1..]);
    }
  }

  lemma {:induction false} LessTransitive(a: Bytes, b: Bytes, c: Bytes)
    requires Less(a, b) && Less(b, c)
    ensures Less(a, c)
  {
    if a != [] && a[0] == b[0] == c[0] {
      LessTransitive(a[1..], b[1..], c[1..]);
    }
  }

  /** Exactly one of `a < b`, `b < a`, `a == b`. */
  lemma {:induction false} LessTrichotomy(a: Bytes, b: Bytes)
    ensures Less(a, b) || Less(b, a) || a == b
    ensures !(Less(a, b) && Less(b, a))
    ensures a == b ==> !Less(a, b)
  {
    if a != [] && b != [] && a[0] == b[0] {
      LessTrichotomy(a[1..], b[1..]);
      if a[1..] == b[1..] {
        assert a == [a[0]] + a[1..] == [b[0]] + b[1..] == b;
      }
    }
    if a == b {
      LessIrreflexive(a);
    }
  }

  /** The order spelled out: a proper prefix comes first, and otherwise the first byte in which
      the strings differ decides, as an unsigned number. */
  lemma {:induction false} LessIff(a: Bytes, b: Bytes)
    ensures Less(a, b) <==> a < b || exists i: nat :: FirstDifference(a, b, i) && a[i] < b[i]
  {
    if a != [] && b != [] {
      LessIff(a[1..], b[1..]);
      if a[0] == b[0] {
        PrefixTail(a, b);
        DifferenceTail(a, b);
      } else {
        assert FirstDifference(a, b, 0);
      }
    }
  }

  predicate FirstDifference(a: Bytes, b: Bytes, i: nat) {
    i < |a| && i < |b| && a[..i] == b[..i] && a[i] != b[i]
  }

  lemma PrefixTail(a: Bytes, b: Bytes)
    requires a != [] && b != [] && a[0] == b[0]
    ensures a < b <==> a[1..] < b[1..]
  {
    assert a == [a[0]] + a[1..] && b == [b[0]] + b[1..];
  }

  lemma DifferenceTail(a: Bytes, b: Bytes)
    requires a != [] && b != [] && a[0] == b[0]
    ensures forall i: nat :: FirstDifference(a[1..], b[1..], i) ==> FirstDifference(a, b, i + 1)
    ensures forall i: nat :: FirstDifference(a, b, i) ==> i > 0 && FirstDifference(a[1..], b[1..], i - 1)
  {
    forall i: nat | FirstDifference(a[1..], b[1..], i) ensures FirstDifference(a, b, i + 1) {
      assert a[..i + 1] == [a[0]] + a[1..][..i] && b[..i + 1] == [b[0]] + b[1..][..i];
    }
    forall i: nat | FirstDifference(a, b, i) ensures i > 0 && FirstDifference(a[1..], b[1..], i - 1) {
      assert a[1..][..i - 1] == a[..i][1..] && b[1..][..i - 1] == b[..i][1..];
    }
  }

  lemma LessAtMostTransitive(a: Bytes, b: Bytes, c: Bytes)
    requires (Less(a, b) && AtMost(b, c)) || (AtMost(a, b) && Less(b, c))
    ensures Less(a, c)
  {
    LessTrichotomy(a, b);
    LessTrichotomy(b, c);
    if Less(a, b) && Less(b, c) {
      LessTransitive(a, b, c);
    }
  }

  lemma AtMostTransitive(a: Bytes, b: Bytes, c: Bytes)
    requires AtMost(a, b) && AtMost(b, c)
    ensures AtMost(a, c)
  {
    if Less(c, a) {
      LessAtMostTransitive(c, a, b);
      assert false;
    }
  }

  /** What makes the second binary search of a prefix query sound: among strings not
      below `p`, those that start with `p` come first. */
  lemma {:induction false} PrefixesComeFirst(p: Bytes, a: Bytes, b: Bytes)
    requires AtMost(p, a) && AtMost(a, b) && p <= b
    ensures p <= a
  {
    if p != [] {
      assert a != [];
      assert a[0] == b[0] == p[0];
      assert p[1..] <= b[1..];
      PrefixesComeFirst(p[1..], a[1..], b[1..]);
      assert a == [a[0]] + a[1..] && p == [p[0]] + p[1..];
    }
  }

  lemma {:induction false} PrefixAtMost(p: Bytes, s: Bytes)
    requires p <= s
    ensures AtMost(p, s)
  {
    if p != [] {
      assert p[1..] <= s[1..];
      PrefixAtMost(p[1..], s[1..]);
    }
  }

  // ---------------------------------------------------------------- UTF-8

  predicate Continuation(b: byte) {
    0x80 <= b < 0xC0
  }

  /** Length of the well-formed character at the front of `s`, 0 if there is none. */
  function CharLength(s: Bytes): (n: nat)
    ensures n <= |s|
  {
    if s == [] then 0
    else
      var b := s[0];
      if b < 0x80 then 1
      else if |s| < 2 || !Continuation(s[1]) then 0
      else if 0xC2 <= b < 0xE0 then 2
      else if |s| < 3 || !Continuation(s[2]) then 0
      else if 0xE0 <= b < 0xF0 && (b == 0xE0 ==> 0xA0 <= s[1]) && (b == 0xED ==> s[1] < 0xA0) then 3
      else if |s| < 4 || !Continuation(s[3]) then 0
      else if 0xF0 <= b < 0xF5 && (b == 0xF0 ==> 0x90 <= s[1]) && (b == 0xF4 ==> s[1] < 0x90) then 4
      else 0
  }

  predicate Utf8(s: Bytes)
    decreases |s|
  {
    s == [] || (CharLength(s) > 0 && Utf8(s[CharLength(s)..]))
  }

  /** Rust's `is_char_boundary`. */
  predicate CharBoundary(s: Bytes, k: nat)
    requires k <= |s|
  {
    k == |s| || !Continuation(s[k])
  }

  lemma CharLengthLocal(a: Bytes, b: Bytes)
    requires CharLength(a) > 0
    ensures CharLength(a + b) == CharLength(a)
  {}

  /** A valid prefix neither breaks nor repairs what follows it. */
  lemma {:induction false} Utf8Append(a: Bytes, b: Bytes)
    requires Utf8(a)
    ensures Utf8(a + b) <==> Utf8(b)
    decreases |a|
  {
    if a == [] {
      assert a + b == b;
    } else {
      var n := CharLength(a);
      CharLengthLocal(a, b);
      assert (a + b)[n..] == a[n..] + b;
      Utf8Append(a[n..], b);
    }
  }

  /** A cut of valid text is valid exactly at the character boundaries. */
  lemma {:induction false} Utf8Cut(s: Bytes, k: nat)
    requires Utf8(s) && k <= |s|
    ensures Utf8(s[..k]) <==> CharBoundary(s, k)
    decreases |s|
  {
    if s == [] || k == 0 {
    } else {
      var n := CharLength(s);
      if k < n {
        assert Continuation(s[k]);
        assert CharLength(s[..k]) == 0;
      } else {
        assert s[..k] == s[..n] + s[n..][..k - n];
        assert CharLength(s[..n]) == n;
        assert s[..n][n..] == [];
        Utf8Append(s[..n], s[n..][..k - n]);
        Utf8Cut(s[n..], k - n);
      }
    }
  }

  /** Every newline byte of valid text is a character of its own. */
  lemma Utf8SplitAtNewline(s: Bytes, i: nat)
    requires i < |s| && s[i] == NEWLINE
    ensures Utf8(s) <==> Utf8(s[..i]) && Utf8(s[i + 1..])
  {
    assert s == s[..i] + s[i..];
    assert s[i..][1..] == s[i + 1..];
    if Utf8(s) {
      Utf8Cut(s, i);
      Utf8Append(s[..i], s[i..]);
    } else if Utf8(s[..i]) {
      Utf8Append(s[..i], s[i..]);
    }
  }

  // ---------------------------------------------------------------- UTF-8 as an encoding

  /** A Unicode scalar value: any code point but a surrogate. */
  predicate Scalar(cp: nat) {
    cp < 0x11_0000 && !(0xD800 <= cp < 0xE000)
  }

  /** The encoding of a scalar value (section 3 of RFC 3629). */
  function Encoded(cp: nat): Bytes
    requires Scalar(cp)
  {
    if cp < 0x80 then [cp as byte]
    else if cp < 0x800 then [(0xC0 + cp / 64) as byte, (0x80 + cp % 64) as byte]
    else if cp < 0x1_0000 then
      [(0xE0 + cp / 4096) as byte, (0x80 + cp / 64 % 64) as byte, (0x80 + cp % 64) as byte]
    else
      [(0xF0 + cp / 262144) as byte, (0x80 + cp / 4096 % 64) as byte, (0x80 + cp / 64 % 64) as byte,
       (0x80 + cp % 64) as byte]
  }

  function EncodedAll(cps: seq<nat>): Bytes
    requires forall cp :: cp in cps ==> Scalar(cp)
  {
    if cps == [] then [] else Encoded(cps[0]) + EncodedAll(cps[1..])
  }

  /** The scalar value a well-formed character stands for. */
  function Decoded(s: Bytes): (cp: nat)
    requires CharLength(s) > 0
  {
    var a := s[0] as nat;
    match CharLength(s)
    case 1 => a
    case 2 => (a - 0xC0) * 64 + (s[1] as nat - 0x80)
    case 3 => (a - 0xE0) * 4096 + (s[1] as nat - 0x80) * 64 + (s[2] as nat - 0x80)
    case _ =>
      (a - 0xF0) * 262144 + (s[1] as nat - 0x80) * 4096 + (s[2] as nat - 0x80) * 64 + (s[3] as nat - 0x80)
  }

  /** Base 64 digits come apart again. */
  lemma Digits(x: nat, y: nat, z: nat)
    requires y < 64 && z < 64
    ensures (x * 64 + z) / 64 == x && (x * 64 + z) % 64 == z
    ensures (x * 4096 + y * 64 + z) / 4096 == x && (x * 4096 + y * 64 + z) / 64 % 64 == y
    ensures (x * 4096 + y * 64 + z) % 64 == z
  {
    var n := x * 4096 + y * 64 + z;
    assert n == (x * 64 + y) * 64 + z;
    assert n / 64 == x * 64 + y;
  }

  lemma TwoBytes(s: Bytes)
    requires CharLength(s) == 2
    ensures Scalar(Decoded(s)) && Encoded(Decoded(s)) == s[..2]
  {
    Digits(s[0] as nat - 0xC0, 0, s[1] as nat - 0x80);
  }

  lemma ThreeBytes(s: Bytes)
    requires CharLength(s) == 3
    ensures Scalar(Decoded(s)) && Encoded(Decoded(s)) == s[..3]
  {
    var x, y, z := s[0] as nat - 0xE0, s[1] as nat - 0x80, s[2] as nat - 0x80;
    Digits(x, y, z);
    assert Decoded(s) == x * 4096 + y * 64 + z;
    assert x == 0 ==> y >= 0x20;
    assert x == 13 ==> y < 0x20;
  }

  lemma FourBytes(s: Bytes)
    requires CharLength(s) == 4
    ensures Scalar(Decoded(s)) && Encoded(Decoded(s)) == s[..4]
  {
    var w, x, y, z := s[0] as nat - 0xF0, s[1] as nat - 0x80, s[2] as nat - 0x80, s[3] as nat - 0x80;
    var cp := Decoded(s);
    assert cp == w * 262144 + x * 4096 + y * 64 + z;
    Digits(w * 64 + x, y, z);
    Digits(w, 0, x);
    assert cp == (w * 64 + x) * 4096 + y * 64 + z;
    assert cp / 262144 == w by { Quarters(w, x * 4096 + y * 64 + z); }
    assert w == 0 ==> x >= 16;
    assert w == 4 ==> x < 16;
  }

  lemma Quarters(w: nat, rest: nat)
    requires rest < 262144
    ensures (w * 262144 + rest) / 262144 == w
  {}

  lemma CharIsEncoded(s: Bytes)
    requires CharLength(s) > 0
    ensures Scalar(Decoded(s)) && Encoded(Decoded(s)) == s[..CharLength(s)]
  {
    hide Encoded;
    match CharLength(s) {
      case 2 => TwoBytes(s);
      case 3 => ThreeBytes(s);
      case 4 => FourBytes(s);
      case _ => OneByte(s);
    }
  }

  lemma OneByte(s: Bytes)
    requires CharLength(s) == 1
    ensures Scalar(Decoded(s)) && Encoded(Decoded(s)) == s[..1]
  {}

  lemma EncodedIsChar(cp: nat, rest: Bytes)
    requires Scalar(cp)
    ensures CharLength(Encoded(cp) + rest) == |Encoded(cp)| > 0
  {
    EncodedAlone(cp);
    CharLengthLocal(Encoded(cp), rest);
  }

  lemma EncodedAlone(cp: nat)
    requires Scalar(cp)
    ensures CharLength(Encoded(cp)) == |Encoded(cp)| > 0
  {
    if 0x800 <= cp < 0x1_0000 {
      EncodedInThree(cp);
    } else if 0x1_0000 <= cp {
      EncodedInFour(cp);
    }
  }

  lemma EncodedInThree(cp: nat)
    requires Scalar(cp) && 0x800 <= cp < 0x1_0000
    ensures CharLength(Encoded(cp)) == |Encoded(cp)| == 3
  {
    var x, y := cp / 4096, cp / 64 % 64;
    assert x == 0 ==> y >= 0x20;
    assert x == 13 ==> y < 0x20;
  }

  lemma EncodedInFour(cp: nat)
    requires Scalar(cp) && 0x1_0000 <= cp
    ensures CharLength(Encoded(cp)) == |Encoded(cp)| == 4
  {
    var w, x := cp / 262144, cp / 4096 % 64;
    assert w == 0 ==> x >= 0x10;
    assert w == 4 ==> x < 0x10;
  }

  /** Valid text is exactly what encoding scalar values one after another gives. */
  lemma {:induction false} Utf8IsEncoded(s: Bytes) returns (cps: seq<nat>)
    requires Utf8(s)
    ensures (forall cp :: cp in cps ==> Scalar(cp)) && EncodedAll(cps) == s
    decreases |s|
  {
    if s == [] {
      cps := [];
    } else {
      var n := CharLength(s);
      var rest := Utf8IsEncoded(s[n..]);
      CharIsEncoded(s);
      hide Encoded;
      hide Decoded;
      hide CharLength;
      hide Utf8;
      cps := [Decoded(s)] + rest;
      assert cps[1..] == rest && s == s[..n] + s[n..];
    }
  }

  lemma {:induction false} EncodedIsUtf8(cps: seq<nat>)
    requires forall cp :: cp in cps ==> Scalar(cp)
    ensures Utf8(EncodedAll(cps))
  {
    if cps != [] {
      var rest := EncodedAll(cps[1..]);
      EncodedIsUtf8(cps[1..]);
      EncodedIsChar(cps[0], rest);
      assert (Encoded(cps[0]) + rest)[|Encoded(cps[0])|..] == rest;
    }
  }
}
