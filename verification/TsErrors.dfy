/** What a refusal says of the text it is about. */
module TsErrors {
  import opened Wrappers
  import opened TsData
  import opened TsParser
  import opened TsGrammar
  import opened TsLexemes
  import opened TsAcceptance
  import opened Text

  predicate EndsIn(s: string, left: string) {
    |left| <= |s| && s[|s| - |left|..] == left
  }

  /** A key starts with neither a quote nor a name character; a value with none of its starts. */
  predicate StartsNoValue(left: string) {
    && left != [] && left[0] !in {'{', '[', '"', '-'} && !('0' <= left[0] <= '9')
    && !(['t', 'r', 'u', 'e'] <= left) && !(['f', 'a', 'l', 's', 'e'] <= left) && !(['n', 'u', 'l', 'l'] <= left)
  }

  /** The refusal fits the text: what it shows is there, where it says, and is what it says. */
  ghost predicate Fits(e: ParseError, s: string) {
    match e
    case Unsupported(left) => EndsIn(s, left) && NoBlank(left) && StartsNoValue(left)
    case ExpectedColon(key, left) =>
      EndsIn(s, left) && NoBlank(left) && (left == [] || left[0] != ':') && ShowsKey(s, key, left)
    case ExpectedKey(left) =>
      && EndsIn(s, left) && left != [] && NoBlank(left)
      && left[0] !in {'"', '}', ','} && !IsNameChar(left[0])
    case UnterminatedEscape => EndsIn(s, ['\\'])
    case TruncatedUnicode => exists x :: |x| < 4 && EndsIn(s, ['\\', 'u'] + x)
    case BadUnicode(hex) => |hex| == 4 && !AllDigits(HexDigitsOf(hex)) && Shows(s, ['\\', 'u'] + hex)
    case NotScalar(hex) =>
      |hex| == 4 && AllDigits(HexDigitsOf(hex)) && !GoodHex(hex) && Shows(s, ['\\', 'u'] + hex)
    case UnsupportedEscape(c) => ShortMeaning(c).None? && c != 'u' && Shows(s, ['\\', c])
    case UnexpectedEnd => true
    case EndInObject => '{' in s
    case EndInArray => '[' in s
    case UnterminatedString => '"' in s
    case _ => false
  }

  /** A way to write the key, and blanks, come before what is left. */
  ghost predicate ShowsKey(s: string, key: string, left: string) {
    exists k, blanks :: KeyMeans(k, key) && GoodKey(k, BlanksThen(blanks, left)) && GoodBlanks(blanks, left)
                        && EndsIn(s, KeyThen(k, BlanksThen(blanks, left)))
  }

  ghost predicate Shows(s: string, part: string) {
    exists i :: 0 <= i <= |s| && part <= s[i..]
  }

  ghost predicate Ends<T>(r: Parse<T>, s: string) {
    if r.Parsed? then EndsIn(s, r.rest) else Fits(r.error, s)
  }

  lemma EndsInTwice(s: string, t: string, left: string)
    requires EndsIn(s, t) && EndsIn(t, left)
    ensures EndsIn(s, left)
  {
  }

  lemma ShowsInLonger(s: string, t: string, part: string)
    requires EndsIn(s, t) && Shows(t, part)
    ensures Shows(s, part)
  {
    var i :| 0 <= i <= |t| && part <= t[i..];
    assert s[|s| - |t| + i..] == t[i..];
  }

  lemma InLonger(s: string, t: string, c: char)
    requires EndsIn(s, t) && c in t
    ensures c in s
  {
    assert s == s[..|s| - |t|] + t;
  }

  /** What fits a text fits every text that ends in it. */
  lemma FitsLonger(e: ParseError, t: string, s: string)
    requires EndsIn(s, t) && Fits(e, t)
    ensures Fits(e, s)
  {
    match e
    case Unsupported(left) => EndsInTwice(s, t, left);
    case ExpectedColon(key, left) =>
      EndsInTwice(s, t, left);
      var k, blanks :| KeyMeans(k, key) && GoodKey(k, BlanksThen(blanks, left)) && GoodBlanks(blanks, left)
                       && EndsIn(t, KeyThen(k, BlanksThen(blanks, left)));
      EndsInTwice(s, t, KeyThen(k, BlanksThen(blanks, left)));
    case ExpectedKey(left) => EndsInTwice(s, t, left);
    case UnterminatedEscape => EndsInTwice(s, t, ['\\']);
    case TruncatedUnicode =>
      var x :| |x| < 4 && EndsIn(t, ['\\', 'u'] + x);
      EndsInTwice(s, t, ['\\', 'u'] + x);
    case BadUnicode(hex) => ShowsInLonger(s, t, ['\\', 'u'] + hex);
    case NotScalar(hex) => ShowsInLonger(s, t, ['\\', 'u'] + hex);
    case UnsupportedEscape(c) => ShowsInLonger(s, t, ['\\', c]);
    case EndInObject => InLonger(s, t, '{');
    case EndInArray => InLonger(s, t, '[');
    case UnterminatedString => InLonger(s, t, '"');
    case _ =>
  }

  // --------------------------------------------------------------- every production goes on

  lemma PrefixEnds(a: string, b: string)
    ensures EndsIn(a + b, b)
  {
  }

  lemma BlankEnds(blank: Blank, rest: string)
    ensures EndsIn(BlankThen(blank, rest), rest)
  {
    match blank
    case Space(c) => PrefixEnds([c], rest);
    case Comment(text) =>
      PrefixEnds(['/', '/'], text + (['\n'] + rest));
      PrefixEnds(text, ['\n'] + rest);
      PrefixEnds(['\n'], rest);
      EndsInTwice(BlankThen(blank, rest), text + (['\n'] + rest), ['\n'] + rest);
      EndsInTwice(BlankThen(blank, rest), ['\n'] + rest, rest);
    case LastComment(text) =>
      PrefixEnds(['/', '/'], text + rest);
      PrefixEnds(text, rest);
      EndsInTwice(BlankThen(blank, rest), text + rest, rest);
  }

  lemma {:induction false} BlanksEnd(blanks: Blanks, rest: string)
    ensures EndsIn(BlanksThen(blanks, rest), rest)
  {
    if blanks != [] {
      BlanksEnd(blanks[1..], rest);
      BlankEnds(blanks[0], BlanksThen(blanks[1..], rest));
      EndsInTwice(BlanksThen(blanks, rest), BlanksThen(blanks[1..], rest), rest);
    }
  }

  lemma TriviaEnds(s: string)
    ensures EndsIn(s, SkipTrivia(s)) && NoBlank(SkipTrivia(s))
  {
    var blanks := BlanksApart(s);
    BlanksEnd(blanks, SkipTrivia(s));
  }

  lemma {:induction false} AnglesEnd(s: string, depth: nat)
    requires depth == 0 ==> s != [] && s[0] == '<'
    ensures EndsIn(s, SkipAngles(s, depth))
    decreases |s|
  {
    if s != [] && !(s[0] == '>' && depth == 1) {
      AnglesEnd(s[1..], if s[0] == '<' then depth + 1 else if s[0] == '>' then depth - 1 else depth);
      EndsInTwice(s, s[1..], SkipAngles(s, depth));
    }
  }

  lemma TypeEnds(s: string)
    ensures EndsIn(s, SkipType(s))
  {
    TriviaEnds(s);
    var name := SkipTrivia(s);
    var u := name[RunLength(name, IsTypeChar)..];
    TriviaEnds(u);
    EndsInTwice(s, name, u);
    EndsInTwice(s, u, SkipTrivia(u));
    var t := SkipTrivia(u);
    if t != [] && t[0] == '<' {
      AnglesEnd(t, 0);
      EndsInTwice(s, t, SkipAngles(t, 0));
    }
  }

  lemma {:induction false} AssertionsEnd(s: string)
    ensures EndsIn(s, SkipAssertions(s))
    decreases |s|
  {
    TriviaEnds(s);
    var t := SkipTrivia(s);
    if "satisfies" <= t {
      TypeEnds(t[9..]);
      EndsInTwice(s, t, t[9..]);
      EndsInTwice(s, t[9..], SkipType(t[9..]));
      AssertionsEnd(SkipType(t[9..]));
      EndsInTwice(s, SkipType(t[9..]), SkipAssertions(s));
    } else if "as const" <= t {
      EndsInTwice(s, t, t[8..]);
      AssertionsEnd(t[8..]);
      EndsInTwice(s, t[8..], SkipAssertions(s));
    }
  }

  lemma ShowsStart(s: string, part: string, rest: string)
    requires s == part + rest
    ensures Shows(s, part) && EndsIn(s, rest)
  {
    assert part <= s[0..];
  }

  lemma EscapeEnds(s: string)
    requires s != [] && s[0] == '\\'
    ensures Ends(ParseEscape(s[1..]), s)
  {
    var t := s[1..];
    assert s == ['\\'] + t;
    if t == [] {
      assert EndsIn(s, ['\\']);
    } else {
      SameEscapes(t[0]);
      ShowsStart(s, ['\\', t[0]], t[1..]);
      if t[0] == 'u' && Unescaped('u').None? {
        UnicodeEnds(s, t[1..]);
      }
    }
  }

  lemma UnicodeEnds(s: string, x: string)
    requires s == ['\\', 'u'] + x && Unescaped('u').None?
    ensures Ends(ParseEscape(s[1..]), s)
  {
    assert s[1..] == ['u'] + x;
    if |x| < 4 {
      assert EndsIn(s, ['\\', 'u'] + x);
    } else {
      var hex := x[..4];
      SameHex(hex);
      assert s[1..][1..5] == hex && s[1..][5..] == x[4..];
      ShowsStart(s, ['\\', 'u'] + hex, x[4..]);
    }
  }

  lemma {:induction false} StringEnds(s: string, acc: string)
    ensures var r := ParseString(s, acc);
            if r.Parsed? then EndsIn(s, r.rest) else r.error == UnterminatedString || Fits(r.error, s)
    decreases |s|
  {
    if s != [] && s[0] != '"' {
      var rest := s[1..];
      var c := s[0];
      if s[0] == '\\' {
        EscapeEnds(s);
        var e := ParseEscape(s[1..]);
        if e.Parsed? {
          rest, c := e.rest, e.value;
        }
      }
      if !(s[0] == '\\' && ParseEscape(s[1..]).Failed?) {
        StringEnds(rest, acc + [c]);
        var r := ParseString(s, acc);
        if r.Parsed? {
          EndsInTwice(s, rest, r.rest);
        } else if r.error != UnterminatedString {
          FitsLonger(r.error, rest, s);
        }
      }
    }
  }

  lemma LiteralEnds(s: string)
    requires s != [] && s[0] == '"'
    ensures var r := ParseString(s[1..], []);
            if r.Parsed? then EndsIn(s, r.rest) else Fits(r.error, s)
  {
    StringEnds(s[1..], []);
    var r := ParseString(s[1..], []);
    if r.Parsed? {
      EndsInTwice(s, s[1..], r.rest);
    } else if r.error != UnterminatedString {
      FitsLonger(r.error, s[1..], s);
    }
  }

  /** A key is asked for where neither the end, a comma nor the closing brace stands. */
  lemma KeyEnds(s: string)
    requires s != [] && NoBlank(s) && s[0] !in {'}', ','}
    ensures var r := ParseKey(s);
            if r.Parsed? then EndsIn(s, r.rest) else Fits(r.error, s)
  {
    if s[0] == '"' {
      LiteralEnds(s);
    } else {
      SameNameChars(s[0]);
    }
  }

  /** Every value that is read leaves an end of the text, and every refusal fits the text. */
  lemma {:induction false} ValueEnds(s: string)
    ensures Ends(ParseValue(s), s)
    decreases |s|, 1
  {
    TriviaEnds(s);
    var t := SkipTrivia(s);
    if t != [] {
      if t[0] == '{' {
        EntriesEnds(t[1..], []);
        InsideEnds(ParseEntries(t[1..], []), t, '{');
      } else if t[0] == '[' {
        ItemsEnds(t[1..], []);
        InsideEnds(ParseItems(t[1..], []), t, '[');
      } else {
        TokenEnds(s, t);
      }
      LongerEnds(ParseValue(s), t, s);
    }
  }

  lemma TokenEnds(s: string, t: string)
    requires t == SkipTrivia(s) && t != [] && t[0] !in {'{', '['} && NoBlank(t)
    ensures Ends(ParseValue(s), t)
  {
    if t[0] == '"' {
      LiteralEnds(t);
    } else if StartsNumeral(t) {
      DropEnds(t, NumeralLength(t));
    } else {
      WordEnds(s, t);
    }
  }

  lemma DropEnds(t: string, n: nat)
    requires n <= |t|
    ensures EndsIn(t, t[n..])
  {
  }

  lemma WordEnds(s: string, t: string)
    requires t == SkipTrivia(s) && t != [] && t[0] !in {'{', '[', '"'} && !StartsNumeral(t) && NoBlank(t)
    ensures Ends(ParseValue(s), t)
  {
    assert ['t', 'r', 'u', 'e'] == "true" && ['f', 'a', 'l', 's', 'e'] == "false" && ['n', 'u', 'l', 'l'] == "null";
    if "true" <= t || "null" <= t {
      DropEnds(t, 4);
    } else if "false" <= t {
      DropEnds(t, 5);
    }
  }

  lemma LongerEnds<T>(r: Parse<T>, t: string, s: string)
    requires Ends(r, t) && EndsIn(s, t)
    ensures Ends(r, s)
  {
    if r.Parsed? {
      EndsInTwice(s, t, r.rest);
    } else {
      FitsLonger(r.error, t, s);
    }
  }

  /** What the loops leave, but for the end of the text, which the opening bracket accounts for. */
  ghost predicate EndsInside(r: Parse<Val>, s: string, open: char) {
    Ends(r, s) || (r.Failed? && r.error == if open == '{' then EndInObject else EndInArray)
  }

  lemma InsideEnds(r: Parse<Val>, t: string, open: char)
    requires t != [] && t[0] == open && open in {'{', '['} && EndsInside(r, t[1..], open)
    ensures Ends(r, t)
  {
    if Ends(r, t[1..]) {
      LongerEnds(r, t[1..], t);
    }
  }

  lemma InsideLonger(r: Parse<Val>, t: string, s: string, open: char)
    requires EndsInside(r, t, open) && EndsIn(s, t)
    ensures EndsInside(r, s, open)
  {
    if Ends(r, t) {
      LongerEnds(r, t, s);
    }
  }

  lemma {:induction false} ItemsEnds(s: string, acc: seq<Val>)
    ensures EndsInside(ParseItems(s, acc), s, '[')
    decreases |s|, 2
  {
    TriviaEnds(s);
    var t := SkipTrivia(s);
    if t != [] && t[0] == ',' {
      ItemsEnds(t[1..], acc);
      EndsInTwice(s, t, t[1..]);
      InsideLonger(ParseItems(s, acc), t[1..], s, '[');
    } else if t != [] && t[0] != ']' {
      TriviaTwice(s);
      SameValue(t, s);
      ValueEnds(s);
      match ParseValue(t)
      case Failed(e) =>
      case Parsed(value, rest) =>
        AssertionsEnd(rest);
        EndsInTwice(s, rest, SkipAssertions(rest));
        ItemsEnds(SkipAssertions(rest), acc + [value]);
        InsideLonger(ParseItems(s, acc), SkipAssertions(rest), s, '[');
    }
  }

  lemma {:induction false} EntriesEnds(s: string, acc: Entries)
    ensures EndsInside(ParseEntries(s, acc), s, '{')
    decreases |s|, 2
  {
    TriviaEnds(s);
    var t := SkipTrivia(s);
    if t != [] && t[0] == ',' {
      EntriesEnds(t[1..], acc);
      EndsInTwice(s, t, t[1..]);
      InsideLonger(ParseEntries(s, acc), t[1..], s, '{');
    } else if t != [] && t[0] != '}' {
      EntryEnds(t);
      LongerEnds(ParseEntry(t), t, s);
      match ParseEntry(t)
      case Failed(e) =>
      case Parsed(entry, rest) =>
        EntriesEnds(rest, acc + [entry]);
        InsideLonger(ParseEntries(s, acc), rest, s, '{');
    }
  }

  lemma {:induction false} EntryEnds(t: string)
    requires t != [] && NoBlank(t) && t[0] !in {'}', ','}
    ensures Ends(ParseEntry(t), t)
    decreases |t|, 1
  {
    KeyEnds(t);
    if ParseKey(t).Parsed? {
      var key, afterKey := ParseKey(t).value, ParseKey(t).rest;
      TriviaEnds(afterKey);
      EndsInTwice(t, afterKey, SkipTrivia(afterKey));
      if NoColon(SkipTrivia(afterKey)) {
        KeyShows(t);
      } else {
        MemberEnds(key, afterKey);
        LongerEnds(ParseMember(key, afterKey), afterKey, t);
      }
    }
  }

  predicate NoColon(u: string) {
    u == [] || u[0] != ':'
  }

  lemma KeyShows(t: string)
    requires ParseKey(t).Parsed?
    ensures ShowsKey(t, ParseKey(t).value, SkipTrivia(ParseKey(t).rest))
  {
    var k := KeyApart(t);
    var blanks := BlanksApart(ParseKey(t).rest);
  }

  lemma {:induction false} MemberEnds(key: string, s: string)
    requires !NoColon(SkipTrivia(s))
    ensures Ends(ParseMember(key, s), s)
    decreases |s|, 2
  {
    TriviaEnds(s);
    var u := SkipTrivia(s);
    ValueEnds(u[1..]);
    EndsInTwice(s, u, u[1..]);
    LongerEnds(ParseValue(u[1..]), u[1..], s);
    if ParseValue(u[1..]).Parsed? {
      var rest := ParseValue(u[1..]).rest;
      AssertionsEnd(rest);
      EndsInTwice(s, rest, SkipAssertions(rest));
    }
  }

  // --------------------------------------------------------------------------- documents

  /** The refusals of a document: one of its value, or the text after it, trimmed, that is not blank. */
  lemma DocumentRefusals(src: string)
    requires ParseJson(src).Err?
    ensures ParseValue(src).Failed? ==> Fits(ParseJson(src).error, src)
    ensures ParseValue(src).Parsed?
            ==> && ParseJson(src).error == TrailingText(Trim(SkipTrivia(ParseValue(src).rest)))
                && !AllWhitespace(SkipTrivia(ParseValue(src).rest))
  {
    ValueEnds(src);
    if ParseValue(src).Parsed? {
      TrimIsEmptyIff(SkipTrivia(ParseValue(src).rest));
    }
  }

  /** A module is refused for its keyword, then for its equals sign, exactly when it lacks it. */
  lemma ModuleRefusals(src: string)
    ensures ParseModuleObject(src) == Err(NoBinding)
            <==> forall i | 0 <= i <= |src| :: !(KEYWORD <= src[i..])
    ensures ParseModuleObject(src) == Err(TsParser.NoEquals)
            <==> exists i :: 0 <= i <= |src| && KEYWORD <= src[i..] && (forall j | 0 <= j < i :: !(KEYWORD <= src[j..]))
                             && '=' !in src[i..]
  {
    KeywordIs();
    if Find(src, EXPORT).Some? {
      var start := Find(src, EXPORT).value;
      BindingRefusals(src[start..]);
    }
  }

  lemma BodyRefusals(body: string)
    ensures ParseBound(body).Err? ==> ParseBound(body).error.TrailingText? || Fits(ParseBound(body).error, body)
  {
    ValueEnds(body);
  }

  lemma NoEqualsIn(s: string)
    ensures Find(s, EQUALS).None? <==> '=' !in s
  {
    KeywordIs();
    if Find(s, EQUALS).Some? {
      assert s[Find(s, EQUALS).value..][0] == '=';
    } else {
      forall i | 0 <= i < |s|
        ensures s[i] != '='
      {
        assert s[i..][0] == s[i] && !(EQUALS <= s[i..]);
      }
    }
  }

  lemma BindingRefusals(binding: string)
    ensures ParseBinding(binding) == Err(TsParser.NoEquals) <==> '=' !in binding
    ensures ParseBinding(binding) != Err(NoBinding)
  {
    NoEqualsIn(binding);
    if Find(binding, EQUALS).Some? {
      BodyRefusals(binding[Find(binding, EQUALS).value + 1..]);
    }
  }
}
