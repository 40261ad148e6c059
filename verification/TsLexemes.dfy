/** The scanner's lexical productions, each against the grammar: blanks, assertions, literals, numerals. */
module TsLexemes {
  import opened Wrappers
  import opened TsData
  import opened TsParser
  import opened TsGrammar

  // ----------------------------------------------------------------------------- blanks

  lemma NoBlankStays(s: string)
    requires NoBlank(s)
    ensures SkipTrivia(s) == s
  {
  }

  lemma {:induction false} LineIsSkipped(text: string, rest: string)
    requires '\n' !in text
    ensures SkipLine(text + (['\n'] + rest)) == rest
    ensures SkipLine(text) == []
  {
    if text == [] {
      assert text + (['\n'] + rest) == ['\n'] + rest;
    } else {
      LineIsSkipped(text[1..], rest);
      assert (text + (['\n'] + rest))[1..] == text[1..] + (['\n'] + rest);
    }
  }

  lemma CommentIsSkipped(text: string, rest: string)
    requires '\n' !in text
    ensures SkipTrivia(['/', '/'] + (text + (['\n'] + rest))) == SkipTrivia(rest)
    ensures SkipTrivia(['/', '/'] + text) == []
  {
    var line := ['/', '/'] + text;
    LineIsSkipped(line, rest);
    assert line + (['\n'] + rest) == ['/', '/'] + (text + (['\n'] + rest));
    assert "//" <= line && "//" <= line + (['\n'] + rest);
  }

  lemma {:induction false} BlanksAreSkipped(blanks: Blanks, rest: string)
    requires GoodBlanks(blanks, rest)
    ensures SkipTrivia(BlanksThen(blanks, rest)) == SkipTrivia(rest)
  {
    if blanks != [] {
      var more := BlanksThen(blanks[1..], rest);
      BlanksAreSkipped(blanks[1..], rest);
      match blanks[0]
      case Space(c) => assert ([c] + more)[1..] == more;
      case Comment(text) => CommentIsSkipped(text, more);
      case LastComment(text) =>
        CommentIsSkipped(text, []);
        assert text + more == text;
    }
  }

  /** A line, its text and its end apart. */
  lemma {:induction false} LineApart(s: string) returns (text: string, ended: bool)
    ensures '\n' !in text
    ensures ended ==> s == text + (['\n'] + SkipLine(s))
    ensures !ended ==> s == text && SkipLine(s) == []
  {
    if s == [] {
      text, ended := [], false;
    } else if s[0] == '\n' {
      text, ended := [], true;
    } else {
      text, ended := LineApart(s[1..]);
      text := [s[0]] + text;
      assert s == [s[0]] + s[1..];
    }
  }

  lemma {:induction false} BlanksApart(s: string) returns (blanks: Blanks)
    ensures s == BlanksThen(blanks, SkipTrivia(s)) && GoodBlanks(blanks, SkipTrivia(s)) && NoBlank(SkipTrivia(s))
    decreases |s|
  {
    if s != [] && IsAsciiWhitespace(s[0]) {
      var more := BlanksApart(s[1..]);
      blanks := [Space(s[0])] + more;
      assert s == [s[0]] + s[1..];
    } else if "//" <= s {
      var more := BlanksApart(SkipLine(s));
      var line, ended := LineApart(s);
      blanks := CommentApart(s, line, ended, more);
    } else {
      blanks := [];
    }
  }

  lemma CommentApart(s: string, line: string, ended: bool, more: Blanks) returns (blanks: Blanks)
    requires "//" <= s && '\n' !in line
    requires ended ==> s == line + (['\n'] + SkipLine(s))
    requires !ended ==> s == line && SkipLine(s) == []
    requires SkipLine(s) == BlanksThen(more, SkipTrivia(s)) && GoodBlanks(more, SkipTrivia(s))
    ensures s == BlanksThen(blanks, SkipTrivia(s)) && GoodBlanks(blanks, SkipTrivia(s))
  {
    assert s[0] == '/' && s[1] == '/';
    if ended {
      assert s[|line|] == '\n';
    }
    assert line == ['/', '/'] + line[2..];
    if ended {
      blanks := [Comment(line[2..])] + more;
      assert s == ['/', '/'] + (line[2..] + (['\n'] + SkipLine(s)));
    } else {
      blanks := [LastComment(line[2..])];
      assert SkipTrivia(s) == [];
      assert blanks[1..] == [];
      assert line[2..] + [] == line[2..];
    }
  }

  // ----------------------------------------------------------------------------- angles

  lemma LevelOfLonger(s: string, c: char)
    ensures Level(s + [c]) == Level(s) + (if c == '<' then 1 else if c == '>' then -1 else 0)
  {
    assert (s + [c])[..|s|] == s;
  }

  lemma LevelAt(args: string, i: nat)
    requires i < |args|
    ensures Level(args[..i + 1]) == Level(args[..i]) + (if args[i] == '<' then 1 else if args[i] == '>' then -1 else 0)
  {
    assert args[..i + 1] == args[..i] + [args[i]];
    LevelOfLonger(args[..i], args[i]);
  }

  lemma StepIn(s: string, i: nat, rest: string)
    requires i < |s|
    ensures s[i..] + rest != [] && (s[i..] + rest)[0] == s[i] && (s[i..] + rest)[1..] == s[i + 1..] + rest
  {
    assert s[i..] == [s[i]] + s[i + 1..];
  }

  /** From any point inside, the scanner goes on to the closing angle, or to the end of the text. */
  lemma {:induction false} AnglesFrom(args: string, i: nat, rest: string)
    requires OpenAngles(args) && i < |args| && Level(args) >= 0 && (Level(args) > 0 ==> rest == [])
    ensures Level(args[..i]) >= 0 && (Level(args[..i]) == 0 ==> i == 0)
    ensures SkipAngles(args[i..] + rest, Level(args[..i])) == rest
    decreases |args| - i
  {
    assert args[..0] == [];
    LevelAt(args, i);
    StepIn(args, i, rest);
    if i + 1 < |args| {
      AnglesFrom(args, i + 1, rest);
    } else {
      assert args[..i + 1] == args && args[i + 1..] + rest == rest;
      if Level(args) > 0 {
        assert rest == [] && SkipAngles([], Level(args)) == [];
      }
    }
  }

  lemma AnglesAreSkipped(args: string, rest: string)
    requires ClosedAngles(args) || (CutAngles(args) && rest == [])
    ensures SkipAngles(args + rest, 0) == rest
  {
    AnglesFrom(args, 0, rest);
    assert args[0..] == args && args[..0] == [];
  }

  /** Some text behind the scanner, and what it takes from here on. */
  lemma {:induction false} AnglesGoOn(done: string, s: string) returns (args: string)
    requires done != [] && OpenAngles(done) && Level(done) > 0
    ensures done + s == args + SkipAngles(s, Level(done))
    ensures ClosedAngles(args) || (CutAngles(args) && SkipAngles(s, Level(done)) == [])
    decreases |s|
  {
    if s == [] {
      args := done;
    } else {
      var longer := done + [s[0]];
      LevelOfLonger(done, s[0]);
      forall i | 0 < i < |longer|
        ensures Level(longer[..i]) > 0
      {
        assert longer[..i] == if i == |done| then done else done[..i];
      }
      assert done + s == longer + s[1..];
      if s[0] == '>' && Level(done) == 1 {
        args := longer;
      } else {
        args := AnglesGoOn(longer, s[1..]);
      }
    }
  }

  lemma AnglesApart(s: string) returns (args: string)
    requires s != [] && s[0] == '<'
    ensures s == args + SkipAngles(s, 0)
    ensures ClosedAngles(args) || (CutAngles(args) && SkipAngles(s, 0) == [])
  {
    var first := ['<'];
    LevelOfLonger([], '<');
    assert [] + ['<'] == first;
    args := AnglesGoOn(first, s[1..]);
    assert first + s[1..] == s;
  }

  // ------------------------------------------------------------------------ assertions

  lemma SameNameChars(c: char)
    ensures IsKeyChar(c) <==> IsNameChar(c)
    ensures IsTypeChar(c) <==> IsTypeNameChar(c)
    ensures IsAsciiWhitespace(c) <==> IsSpace(c)
  {
  }

  /** A run stops where it must. */
  lemma RunIsTaken(name: string, rest: string, p: char -> bool)
    requires forall i | 0 <= i < |name| :: p(name[i])
    requires rest == [] || !p(rest[0])
    ensures RunLength(name + rest, p) == |name|
    ensures (name + rest)[..|name|] == name && (name + rest)[|name|..] == rest
  {
    var s := name + rest;
    assert forall i | 0 <= i < |name| :: s[i] == name[i];
    assert rest != [] ==> s[|name|] == rest[0];
  }

  /** The type of a good `satisfies` is skipped whole. */
  lemma TypeIsSkipped(gap: Blanks, name: string, mid: Blanks, args: string, rest: string)
    requires GoodAssertion(Satisfies([], gap, name, mid, args), rest)
    ensures SkipType(BlanksThen(gap, name + BlanksThen(mid, args + rest))) == rest
  {
    var afterName := BlanksThen(mid, args + rest);
    BlanksAreSkipped(gap, name + afterName);
    NoBlankStays(name + afterName);
    RunIsTaken(name, afterName, IsTypeChar);
    BlanksAreSkipped(mid, args + rest);
    NoBlankStays(args + rest);
    if args == [] {
      assert args + rest == rest;
    } else {
      AnglesAreSkipped(args, rest);
    }
  }

  lemma AsConstIsSkipped(rest: string)
    ensures SkipAssertions(AS_CONST + rest) == SkipAssertions(rest)
  {
    var s := AS_CONST + rest;
    NoBlankStays(s);
    assert AS_CONST == "as const";
    assert s[..8] == AS_CONST && s[8..] == rest;
    assert "as const" <= s;
    assert s[0] == 'a' && !("satisfies" <= s) by {
      assert s[1] == 's' && "satisfies"[1] == 'a';
    }
  }

  lemma SatisfiesIsSkipped(rest: string)
    ensures SkipAssertions(SATISFIES + rest) == SkipAssertions(SkipType(rest))
  {
    var s := SATISFIES + rest;
    NoBlankStays(s);
    assert SATISFIES == "satisfies";
    assert s[..9] == SATISFIES && s[9..] == rest;
    assert "satisfies" <= s;
  }

  lemma {:induction false} SkipsFromToken(s: string, t: string)
    requires SkipTrivia(s) == SkipTrivia(t)
    ensures SkipAssertions(s) == SkipAssertions(t)
  {
  }

  lemma AssertionIsSkipped(a: Assertion, rest: string)
    requires GoodAssertion(a, rest)
    ensures SkipAssertions(AssertionThen(a, rest)) == SkipAssertions(rest)
  {
    match a
    case AsConst(before) =>
      BlanksAreSkipped(before, AS_CONST + rest);
      SkipsFromToken(AssertionThen(a, rest), AS_CONST + rest);
      AsConstIsSkipped(rest);
    case Satisfies(before, gap, name, mid, args) =>
      var body := BlanksThen(gap, name + BlanksThen(mid, args + rest));
      BlanksAreSkipped(before, SATISFIES + body);
      SkipsFromToken(AssertionThen(a, rest), SATISFIES + body);
      SatisfiesIsSkipped(body);
      TypeIsSkipped(gap, name, mid, args, rest);
  }

  lemma {:induction false} AssertionListIsSkipped(list: seq<Assertion>, rest: string)
    requires GoodAssertionList(list, rest)
    ensures SkipAssertions(AssertionListThen(list, rest)) == SkipAssertions(rest)
  {
    if list != [] {
      AssertionIsSkipped(list[0], AssertionListThen(list[1..], rest));
      AssertionListIsSkipped(list[1..], rest);
    }
  }

  lemma SameKeywords(s: string)
    ensures ("satisfies" <= s <==> SATISFIES <= s) && ("as const" <= s <==> AS_CONST <= s)
  {
    assert SATISFIES == "satisfies" && AS_CONST == "as const";
  }

  lemma AssertionsAreSkipped(a: Assertions, rest: string)
    requires GoodAssertions(a, rest)
    ensures SkipAssertions(AssertionsThen(a, rest)) == rest
  {
    AssertionListIsSkipped(a.list, BlanksThen(a.close, rest));
    BlanksAreSkipped(a.close, rest);
    NoBlankStays(rest);
    SameKeywords(rest);
  }

  lemma RunApart(s: string, p: char -> bool)
    ensures s == s[..RunLength(s, p)] + s[RunLength(s, p)..]
    ensures forall i | 0 <= i < RunLength(s, p) :: p(s[..RunLength(s, p)][i])
    ensures s[RunLength(s, p)..] == [] || !p(s[RunLength(s, p)..][0])
  {
    var n := RunLength(s, p);
    assert n < |s| ==> s[n..][0] == s[n];
  }

  lemma TypeApart(s: string) returns (gap: Blanks, name: string, mid: Blanks, args: string)
    ensures s == BlanksThen(gap, name + BlanksThen(mid, args + SkipType(s)))
    ensures GoodAssertion(Satisfies([], gap, name, mid, args), SkipType(s))
  {
    gap := BlanksApart(s);
    var afterName;
    name, afterName := NameApart(SkipTrivia(s));
    mid := BlanksApart(afterName);
    args := ArgumentsApart(SkipTrivia(afterName));
    TypeIsPast(s, name, afterName);
    assert BlanksThen(mid, args + SkipType(s)) == afterName;
  }

  lemma NameApart(t: string) returns (name: string, after: string)
    ensures name == t[..RunLength(t, IsTypeChar)] && after == t[RunLength(t, IsTypeChar)..]
    ensures t == name + after && NoName(after)
    ensures forall i | 0 <= i < |name| :: IsTypeNameChar(name[i])
  {
    RunApart(t, IsTypeChar);
    name, after := t[..RunLength(t, IsTypeChar)], t[RunLength(t, IsTypeChar)..];
  }

  lemma TypeIsPast(s: string, name: string, afterName: string)
    requires afterName == SkipTrivia(s)[RunLength(SkipTrivia(s), IsTypeChar)..]
    ensures SkipType(s) == PastArguments(SkipTrivia(afterName))
  {
  }

  /** The text past the arguments of a type. */
  function PastArguments(s: string): string {
    if s != [] && s[0] == '<' then SkipAngles(s, 0) else s
  }

  lemma ArgumentsApart(s: string) returns (args: string)
    ensures s == args + PastArguments(s)
    ensures || (args == [] && (PastArguments(s) == [] || PastArguments(s)[0] != '<'))
            || ClosedAngles(args)
            || (CutAngles(args) && PastArguments(s) == [])
  {
    args := [];
    if s != [] && s[0] == '<' {
      args := AnglesApart(s);
    }
  }

  lemma {:induction false} AssertionsApart(s: string) returns (a: Assertions)
    ensures s == AssertionsThen(a, SkipAssertions(s)) && GoodAssertions(a, SkipAssertions(s))
    decreases |s|
  {
    var before := BlanksApart(s);
    var t := SkipTrivia(s);
    SameKeywords(t);
    if "satisfies" <= t {
      assert t == SATISFIES + t[9..];
      var gap, name, mid, args := TypeApart(t[9..]);
      var more := AssertionsApart(SkipType(t[9..]));
      a := PrependAssertion(Satisfies(before, gap, name, mid, args), more, s, SkipAssertions(s));
    } else if "as const" <= t {
      assert t == AS_CONST + t[8..];
      var more := AssertionsApart(t[8..]);
      a := PrependAssertion(AsConst(before), more, s, SkipAssertions(s));
    } else {
      a := Assertions([], before);
    }
  }

  lemma PrependAssertion(first: Assertion, more: Assertions, s: string, rest: string) returns (a: Assertions)
    requires GoodAssertions(more, rest) && GoodAssertion(first, AssertionsThen(more, rest))
    requires s == AssertionThen(first, AssertionsThen(more, rest))
    ensures s == AssertionsThen(a, rest) && GoodAssertions(a, rest)
  {
    a := Assertions([first] + more.list, more.close);
    assert a.list[1..] == more.list;
  }

  // ---------------------------------------------------------------------------- strings

  lemma SameDigit(c: char)
    ensures HexDigit(c) == DigitOf(c)
  {
  }

  lemma {:induction false} DigitsFromTheEnd(s: string, c: char, acc: nat)
    ensures HexDigits(s + [c], acc)
            == if HexDigits(s, acc).Some? && HexDigit(c).Some?
               then Some(16 * HexDigits(s, acc).value + HexDigit(c).value) else None
  {
    if s == [] {
      assert s + [c] == [c] && [c][1..] == [];
    } else {
      assert (s + [c])[1..] == s[1..] + [c];
      if HexDigit(s[0]).Some? {
        DigitsFromTheEnd(s[1..], c, 16 * acc + HexDigit(s[0]).value);
      }
    }
  }

  lemma {:induction false} SameNumber(s: string)
    ensures HexDigits(s, 0) == if AllDigits(s) then Some(HexNumber(s)) else None
  {
    if s != [] {
      var early, last := s[..|s| - 1], s[|s| - 1];
      SameNumber(early);
      SameDigit(last);
      assert s == early + [last];
      DigitsFromTheEnd(early, last, 0);
    }
  }

  lemma SameHex(hex: string)
    requires |hex| == 4
    ensures HexValue(hex) == if AllDigits(HexDigitsOf(hex)) then Some(HexNumber(HexDigitsOf(hex))) else None
  {
    SameNumber(HexDigitsOf(hex));
  }

  lemma SameEscapes(c: char)
    ensures Unescaped(c) == ShortMeaning(c)
  {
  }

  lemma EscapeIsRead(p: Piece, rest: string)
    requires GoodPiece(p) && !p.Raw?
    ensures PieceThen(p, rest)[0] == '\\'
    ensures ParseEscape(PieceThen(p, rest)[1..]) == Parsed(Meaning(p), rest)
  {
    var s := PieceThen(p, rest)[1..];
    match p
    case Short(letter) =>
      SameEscapes(letter);
      assert s == [letter] + rest;
    case Unicode(hex) =>
      UnicodeIsRead(hex, rest);
      assert s == ['u'] + (hex + rest);
  }

  lemma UnicodeIsRead(hex: string, rest: string)
    requires GoodHex(hex)
    ensures ParseEscape(['u'] + (hex + rest)) == Parsed(HexNumber(HexDigitsOf(hex)) as char, rest)
  {
    var s := ['u'] + (hex + rest);
    SameHex(hex);
    SameEscapes('u');
    assert s[1..5] == hex && s[5..] == rest;
  }

  lemma PieceIsRead(p: Piece, rest: string, acc: string)
    requires GoodPiece(p)
    ensures ParseString(PieceThen(p, rest), acc) == ParseString(rest, acc + [Meaning(p)])
  {
    var s := PieceThen(p, rest);
    if p.Raw? {
      assert s[1..] == rest;
    } else {
      EscapeIsRead(p, rest);
    }
  }

  lemma {:induction false} PiecesAreRead(pieces: seq<Piece>, rest: string, acc: string)
    requires GoodPieces(pieces)
    ensures ParseString(PiecesThen(pieces, rest), acc) == Parsed(acc + Meanings(pieces), rest)
  {
    if pieces == [] {
      assert (['"'] + rest)[1..] == rest;
      assert acc + Meanings(pieces) == acc;
    } else {
      PieceIsRead(pieces[0], PiecesThen(pieces[1..], rest), acc);
      PiecesAreRead(pieces[1..], rest, acc + [Meaning(pieces[0])]);
      assert acc + [Meaning(pieces[0])] + Meanings(pieces[1..]) == acc + Meanings(pieces);
    }
  }

  lemma EscapeApart(s: string) returns (p: Piece)
    requires s != [] && s[0] == '\\' && ParseEscape(s[1..]).Parsed?
    ensures GoodPiece(p) && !p.Raw?
    ensures s == PieceThen(p, ParseEscape(s[1..]).rest) && ParseEscape(s[1..]).value == Meaning(p)
  {
    var t := s[1..];
    SameEscapes(t[0]);
    if Unescaped(t[0]).Some? {
      p := Short(t[0]);
      assert s == ['\\', t[0]] + t[1..];
    } else {
      var hex := t[1..5];
      SameHex(hex);
      p := Unicode(hex);
      assert s == ['\\', 'u'] + (hex + t[5..]);
    }
  }

  lemma {:induction false} PiecesApart(s: string, acc: string) returns (pieces: seq<Piece>)
    requires ParseString(s, acc).Parsed?
    ensures GoodPieces(pieces) && s == PiecesThen(pieces, ParseString(s, acc).rest)
    ensures ParseString(s, acc).value == acc + Meanings(pieces)
    decreases |s|
  {
    if s[0] == '"' {
      pieces := [];
      assert s == ['"'] + s[1..] && acc + Meanings([]) == acc;
    } else {
      var first, rest := Raw(s[0]), s[1..];
      if s[0] == '\\' {
        first := EscapeApart(s);
        rest := ParseEscape(s[1..]).rest;
      } else {
        assert s == [s[0]] + rest;
      }
      var more := PiecesApart(rest, acc + [Meaning(first)]);
      pieces := [first] + more;
      assert pieces[1..] == more;
      assert acc + [Meaning(first)] + Meanings(more) == acc + Meanings(pieces);
    }
  }

  // --------------------------------------------------------------------------- numerals

  lemma SameMarks(prev: char, c: char)
    ensures GoesOn(prev, c)
            <==> IsDigit(c) || c == '.' || c == 'e' || c == 'E'
                 || ((c == '+' || c == '-') && (prev == 'e' || prev == 'E'))
  {
  }

  /** From any point inside, the rest of a good numeral is taken and no more. */
  lemma {:induction false} NumeralGoesOn(digits: string, i: nat, rest: string)
    requires GoodNumeral(digits) && 1 <= i <= |digits|
    requires rest == [] || !GoesOn(digits[|digits| - 1], rest[0])
    ensures NumeralTail(digits[i - 1], digits[i..] + rest) == |digits| - i
    decreases |digits| - i
  {
    if i < |digits| {
      StepIn(digits, i, rest);
      assert GoesOn(digits[i - 1], digits[i]);
      NumeralGoesOn(digits, i + 1, rest);
    } else {
      assert digits[i..] + rest == rest;
    }
  }

  lemma NumeralIsTaken(digits: string, rest: string)
    requires GoodNumeral(digits) && (rest == [] || !GoesOn(digits[|digits| - 1], rest[0]))
    ensures StartsNumeral(digits + rest) && NumeralLength(digits + rest) == |digits|
    ensures (digits + rest)[..|digits|] == digits && (digits + rest)[|digits|..] == rest
  {
    NumeralGoesOn(digits, 1, rest);
    assert (digits + rest)[1..] == digits[1..] + rest;
  }

  /** A numeral as the scanner takes it: every character goes on, and what is left does not. */
  lemma {:induction false} TailApart(prev: char, s: string)
    ensures var n := NumeralTail(prev, s);
            && (forall i | 0 <= i < n :: GoesOn(if i == 0 then prev else s[i - 1], s[i]))
            && (n < |s| ==> !GoesOn(if n == 0 then prev else s[n - 1], s[n]))
    decreases |s|
  {
    var n := NumeralTail(prev, s);
    if n > 0 {
      TailApart(s[0], s[1..]);
      forall i | 0 <= i < n
        ensures GoesOn(if i == 0 then prev else s[i - 1], s[i])
      {
        if i > 0 {
          assert s[i] == s[1..][i - 1];
        }
      }
      assert n < |s| ==> s[n] == s[1..][n - 1];
    }
  }

  lemma NumeralApart(s: string)
    requires StartsNumeral(s)
    ensures var digits, rest := s[..NumeralLength(s)], s[NumeralLength(s)..];
            && s == digits + rest && GoodNumeral(digits)
            && (rest == [] || !GoesOn(digits[|digits| - 1], rest[0]))
  {
    TailApart(s[0], s[1..]);
    var n := NumeralLength(s);
    forall i | 1 <= i < n
      ensures GoesOn(s[i - 1], s[i])
    {
      assert s[i] == s[1..][i - 1];
      assert i > 1 ==> s[i - 1] == s[1..][i - 2];
    }
    if n < |s| {
      assert s[n] == s[1..][n - 1];
      assert n > 1 ==> s[n - 1] == s[1..][n - 2];
    }
  }

  // ------------------------------------------------------------------------------- keys

  lemma QuoteApart(pieces: seq<Piece>, rest: string)
    ensures (['"'] + PiecesThen(pieces, rest))[0] == '"'
    ensures (['"'] + PiecesThen(pieces, rest))[1..] == PiecesThen(pieces, rest)
  {
  }

  lemma KeyIsRead(key: Key, text: string, rest: string)
    requires GoodKey(key, rest) && KeyMeans(key, text)
    ensures ParseKey(KeyThen(key, rest)) == Parsed(text, rest)
    ensures NoBlank(KeyThen(key, rest)) && KeyThen(key, rest) != []
    ensures KeyThen(key, rest)[0] !in {',', '}', ':'}
  {
    match key
    case Bare(name) =>
      assert (name + rest)[0] == name[0];
      RunIsTaken(name, rest, IsKeyChar);
    case Quoted(pieces) =>
      QuoteApart(pieces, rest);
      PiecesAreRead(pieces, rest, []);
      assert [] + Meanings(pieces) == Meanings(pieces);
  }

  lemma KeyApart(s: string) returns (key: Key)
    requires ParseKey(s).Parsed?
    ensures s == KeyThen(key, ParseKey(s).rest) && GoodKey(key, ParseKey(s).rest) && KeyMeans(key, ParseKey(s).value)
  {
    if s != [] && s[0] == '"' {
      var pieces := PiecesApart(s[1..], []);
      key := Key.Quoted(pieces);
      assert s == ['"'] + s[1..];
      assert [] + Meanings(pieces) == Meanings(pieces);
    } else {
      RunApart(s, IsKeyChar);
      key := Bare(s[..RunLength(s, IsKeyChar)]);
    }
  }
}
