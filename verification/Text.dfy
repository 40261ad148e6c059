/** White space as the source's string functions see it. */
module Text {

  /** The white space of `str::trim`: Unicode's White_Space. */
  predicate IsWhitespace(c: char) {
    var u := c as int;
    9 <= u <= 13 || u == 0x20 || u == 0x85 || u == 0xA0 || u == 0x1680 || 0x2000 <= u <= 0x200A
    || u == 0x2028 || u == 0x2029 || u == 0x202F || u == 0x205F || u == 0x3000
  }

  /** The characters of the Unicode property, one by one. */
  lemma WhitespaceIs(c: char)
    ensures IsWhitespace(c)
            <==> c as int in {0x09, 0x0A, 0x0B, 0x0C, 0x0D, 0x20, 0x85, 0xA0, 0x1680, 0x2000, 0x2001, 0x2002, 0x2003,
                              0x2004, 0x2005, 0x2006, 0x2007, 0x2008, 0x2009, 0x200A, 0x2028, 0x2029, 0x202F, 0x205F,
                              0x3000}
  {
  }

  predicate AllWhitespace(s: string) {
    forall i | 0 <= i < |s| :: IsWhitespace(s[i])
  }

  function TrimStart(s: string): string {
    if s == [] || !IsWhitespace(s[0]) then s else TrimStart(s[1..])
  }

  function TrimEnd(s: string): string {
    if s == [] || !IsWhitespace(s[|s| - 1]) then s else TrimEnd(s[..|s| - 1])
  }

  function Trim(s: string): string {
    TrimEnd(TrimStart(s))
  }

  /** Nothing, or a text that neither starts nor ends with white space. */
  predicate IsTight(t: string) {
    t == [] || (!IsWhitespace(t[0]) && !IsWhitespace(t[|t| - 1]))
  }

  lemma {:induction false} TrimStartOf(a: string, s: string)
    requires AllWhitespace(a) && (s == [] || !IsWhitespace(s[0]))
    ensures TrimStart(a + s) == s
  {
    if a == [] {
      assert a + s == s;
    } else {
      TrimStartOf(a[1..], s);
      assert (a + s)[1..] == a[1..] + s;
    }
  }

  lemma {:induction false} TrimEndOf(s: string, b: string)
    requires AllWhitespace(b) && (s == [] || !IsWhitespace(s[|s| - 1]))
    ensures TrimEnd(s + b) == s
  {
    if b == [] {
      assert s + b == s;
    } else {
      TrimEndOf(s, b[..|b| - 1]);
      assert (s + b)[..|s + b| - 1] == s + b[..|b| - 1];
    }
  }

  lemma {:induction false} StartApart(s: string) returns (a: string)
    ensures s == a + TrimStart(s) && AllWhitespace(a)
    ensures TrimStart(s) == [] || !IsWhitespace(TrimStart(s)[0])
  {
    if s == [] || !IsWhitespace(s[0]) {
      a := [];
    } else {
      var more := StartApart(s[1..]);
      a := [s[0]] + more;
      FirstApart(s, more, TrimStart(s));
    }
  }

  lemma FirstApart(s: string, more: string, rest: string)
    requires s != [] && s[1..] == more + rest
    ensures s == ([s[0]] + more) + rest
  {
  }

  lemma {:induction false} EndApart(s: string) returns (b: string)
    ensures s == TrimEnd(s) + b && AllWhitespace(b)
    ensures TrimEnd(s) == [] || !IsWhitespace(TrimEnd(s)[|TrimEnd(s)| - 1])
  {
    if s == [] || !IsWhitespace(s[|s| - 1]) {
      b := [];
    } else {
      var more := EndApart(s[..|s| - 1]);
      b := more + [s[|s| - 1]];
      assert s == s[..|s| - 1] + [s[|s| - 1]];
    }
  }

  /** What trimming leaves is tight, and only white space goes. */
  lemma TrimApart(s: string) returns (a: string, b: string)
    ensures s == a + (Trim(s) + b) && AllWhitespace(a) && AllWhitespace(b) && IsTight(Trim(s))
  {
    a := StartApart(s);
    b := EndApart(TrimStart(s));
    var t := Trim(s);
    assert t != [] ==> t[0] == TrimStart(s)[0];
  }

  /** And that says all: trimming a tight text between white space gives the text. */
  lemma TrimOf(a: string, t: string, b: string)
    requires AllWhitespace(a) && AllWhitespace(b) && IsTight(t)
    ensures Trim(a + (t + b)) == t
  {
    if t == [] {
      assert a + (t + b) == (a + b) + [];
      TrimStartOf(a + b, []);
    } else {
      TrimStartOf(a, t + b);
      TrimEndOf(t, b);
    }
  }

  /** Nothing is left exactly of white space. */
  lemma TrimIsEmptyIff(s: string)
    ensures Trim(s) == [] <==> AllWhitespace(s)
  {
    var a, b := TrimApart(s);
    if AllWhitespace(s) {
      TrimOf(s, [], []);
      assert s + ([] + []) == s;
    }
  }
}
