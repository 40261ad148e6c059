/**
 Byte strings that hold UTF-8 text, as section 4 of RFC 3629 lays it out. A `&str` of the source
 is a byte string for which `Valid` holds.
 */
module Utf8 {

  type Byte = b: int | 0 <= b < 256

  type Bytes = seq<Byte>

  predicate Continuation(b: Byte) {
    0x80 <= b < 0xC0
  }

  /** The length of the one character that starts `s`, or 0 when no well-formed character does. */
  function CharLength(s: Bytes): (n: nat)
    ensures n <= |s|
  {
    if |s| >= 1 && s[0] < 0x80 then 1
    else if |s| >= 2 && 0xC2 <= s[0] < 0xE0 && Continuation(s[1]) then 2
    else if |s| >= 3 && 0xE0 <= s[0] < 0xF0 && Continuation(s[1]) && Continuation(s[2])
            && (s[0] == 0xE0 ==> 0xA0 <= s[1]) && (s[0] == 0xED ==> s[1] < 0xA0) then 3
    else if |s| >= 4 && 0xF0 <= s[0] < 0xF5 && Continuation(s[1]) && Continuation(s[2]) && Continuation(s[3])
            && (s[0] == 0xF0 ==> 0x90 <= s[1]) && (s[0] == 0xF4 ==> s[1] < 0x90) then 4
    else 0
  }

  predicate Valid(s: Bytes)
    decreases |s|
  {
    s == [] || (CharLength(s) > 0 && Valid(s[CharLength(s)..]))
  }

  /** What `str::get(i..)` asks of `i`: an end of the string, or a byte that starts a character. */
  predicate IsCharBoundary(s: Bytes, i: nat) {
    i == 0 || i == |s| || (i < |s| && !Continuation(s[i]))
  }

  /** From a boundary on, valid text is valid text. */
  lemma {:induction false} SuffixAtBoundary(s: Bytes, i: nat)
    requires Valid(s) && i <= |s| && IsCharBoundary(s, i)
    ensures Valid(s[i..])
    decreases |s|
  {
    if i == 0 {
      assert s[i..] == s;
    } else if i < |s| {
      var n := CharLength(s);
      assert i >= n;
      SuffixAtBoundary(s[n..], i - n);
      assert s[n..][i - n..] == s[i..];
    }
  }

  lemma PrefixHasSameFirst(s: Bytes, i: nat)
    requires i <= |s| && CharLength(s[..i]) > 0
    ensures CharLength(s) == CharLength(s[..i])
  {
    var p := s[..i];
    assert forall k | 0 <= k < |p| :: p[k] == s[k];
  }

  /** Cutting a valid prefix off valid text leaves valid text. */
  lemma {:induction false} RestAfterPrefix(s: Bytes, i: nat)
    requires i <= |s| && Valid(s) && Valid(s[..i])
    ensures Valid(s[i..])
    decreases |s|
  {
    if i == 0 {
      assert s[i..] == s;
    } else {
      var n := CharLength(s[..i]);
      PrefixHasSameFirst(s, i);
      assert s[..i][n..] == s[n..][..i - n];
      RestAfterPrefix(s[n..], i - n);
      assert s[n..][i - n..] == s[i..];
    }
  }

  /** Valid text put after valid text is valid text. */
  lemma {:induction false} ConcatenationValid(a: Bytes, b: Bytes)
    requires Valid(a) && Valid(b)
    ensures Valid(a + b)
    decreases |a|
  {
    if a == [] {
      assert a + b == b;
    } else {
      var n := CharLength(a);
      assert CharLength(a + b) == n;
      assert (a + b)[n..] == a[n..] + b;
      ConcatenationValid(a[n..], b);
    }
  }

  /** A boundary of valid text is where its starts and its ends are valid texts. */
  lemma {:induction false} BoundaryIff(s: Bytes, i: nat)
    requires Valid(s) && i <= |s|
    ensures IsCharBoundary(s, i) <==> Valid(s[..i])
    ensures IsCharBoundary(s, i) <==> Valid(s[i..])
    decreases |s|
  {
    if i == 0 {
      assert s[..i] == [] && s[i..] == s;
    } else if i == |s| {
      assert s[..i] == s && s[i..] == [];
    } else {
      var k := CharLength(s);
      if i < k {
        assert Continuation(s[i]);
        assert s[i..][0] == s[i];
        assert CharLength(s[i..]) == 0;
        ShortStart(s, i);
      } else {
        BoundaryIff(s[k..], i - k);
        assert s[k..][..i - k] == s[k..i] && s[k..][i - k..] == s[i..];
        assert s[..i][..k] == s[..k] && s[..i][k..] == s[k..i];
        PrefixLength(s, i);
      }
    }
  }

  /** A start that cuts the first character short is no text. */
  lemma ShortStart(s: Bytes, i: nat)
    requires 0 < i < CharLength(s)
    ensures !Valid(s[..i])
  {
    assert CharLength(s[..i]) == 0;
  }

  lemma PrefixLength(s: Bytes, i: nat)
    requires 0 < CharLength(s) <= i <= |s|
    ensures CharLength(s[..i]) == CharLength(s)
  {
  }

  // ------------------------------------------------------------------------- the encoding

  predicate IsScalar(n: nat) {
    n < 0xD800 || 0xE000 <= n < 0x11_0000
  }

  /** The bytes of one character: its number, six bits to a byte after the first. */
  function Encode(n: nat): Bytes
    requires IsScalar(n)
  {
    if n < 0x80 then [n]
    else if n < 0x800 then [0xC0 + n / 64, 0x80 + n % 64]
    else if n < 0x1_0000 then [0xE0 + n / 64 / 64, 0x80 + n / 64 % 64, 0x80 + n % 64]
    else [0xF0 + n / 64 / 64 / 64, 0x80 + n / 64 / 64 % 64, 0x80 + n / 64 % 64, 0x80 + n % 64]
  }

  predicate AllScalars(text: seq<nat>) {
    forall i | 0 <= i < |text| :: IsScalar(text[i])
  }

  function EncodeAll(text: seq<nat>): Bytes
    requires AllScalars(text)
  {
    if text == [] then [] else Encode(text[0]) + EncodeAll(text[1..])
  }

  lemma EncodedIsOneCharacter(n: nat, rest: Bytes)
    requires IsScalar(n)
    ensures CharLength(Encode(n) + rest) == |Encode(n)| && (Encode(n) + rest)[|Encode(n)|..] == rest
  {
    var s, e := Encode(n) + rest, Encode(n);
    assert forall i | 0 <= i < |e| :: s[i] == e[i];
  }

  lemma Sextet(high: nat, low: nat)
    requires low < 64
    ensures (high * 64 + low) / 64 == high && (high * 64 + low) % 64 == low
  {
  }

  lemma TwoBytes(a: nat, b: nat) returns (n: nat)
    requires 2 <= a < 0x20 && b < 64
    ensures IsScalar(n) && Encode(n) == [0xC0 + a, 0x80 + b]
  {
    n := a * 64 + b;
    Sextet(a, b);
  }

  lemma ThreeBytes(a: nat, b: nat, c: nat) returns (n: nat)
    requires a < 16 && b < 64 && c < 64 && (a == 0 ==> 0x20 <= b) && (a == 0xD ==> b < 0x20)
    ensures IsScalar(n) && Encode(n) == [0xE0 + a, 0x80 + b, 0x80 + c]
  {
    n := (a * 64 + b) * 64 + c;
    Sextet(a * 64 + b, c);
    Sextet(a, b);
  }

  lemma FourBytes(a: nat, b: nat, c: nat, d: nat) returns (n: nat)
    requires a < 5 && b < 64 && c < 64 && d < 64 && (a == 0 ==> 0x10 <= b) && (a == 4 ==> b < 0x10)
    ensures IsScalar(n) && Encode(n) == [0xF0 + a, 0x80 + b, 0x80 + c, 0x80 + d]
  {
    n := ((a * 64 + b) * 64 + c) * 64 + d;
    Sextet((a * 64 + b) * 64 + c, d);
    Sextet(a * 64 + b, c);
    Sextet(a, b);
  }

  lemma FirstCharacter(s: Bytes) returns (n: nat)
    requires CharLength(s) > 0
    ensures IsScalar(n) && s == Encode(n) + s[CharLength(s)..]
  {
    var k := CharLength(s);
    if k == 1 {
      n := s[0];
    } else if k == 2 {
      n := TwoBytes(s[0] as int - 0xC0, s[1] as int - 0x80);
    } else if k == 3 {
      n := ThreeBytes(s[0] as int - 0xE0, s[1] as int - 0x80, s[2] as int - 0x80);
    } else {
      n := FourBytes(s[0] as int - 0xF0, s[1] as int - 0x80, s[2] as int - 0x80, s[3] as int - 0x80);
    }
    assert Encode(n) == s[..k];
  }

  lemma {:induction false} EncodedIsValid(text: seq<nat>)
    requires AllScalars(text)
    ensures Valid(EncodeAll(text))
  {
    if text != [] {
      EncodedIsOneCharacter(text[0], EncodeAll(text[1..]));
      EncodedIsValid(text[1..]);
    }
  }

  lemma {:induction false} ValidIsEncoded(s: Bytes) returns (text: seq<nat>)
    requires Valid(s)
    ensures AllScalars(text) && EncodeAll(text) == s
    decreases |s|
  {
    if s == [] {
      text := [];
    } else {
      var first := FirstCharacter(s);
      var more := ValidIsEncoded(s[CharLength(s)..]);
      text := [first] + more;
      assert text[1..] == more;
    }
  }

  /** Valid byte strings are the encodings of character sequences, and nothing else. */
  lemma ValidIffEncoded(s: Bytes)
    ensures Valid(s) <==> exists text :: AllScalars(text) && EncodeAll(text) == s
  {
    if Valid(s) {
      var text := ValidIsEncoded(s);
    }
    if text :| AllScalars(text) && EncodeAll(text) == s {
      EncodedIsValid(text);
    }
  }
}
