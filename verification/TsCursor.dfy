/** The scanner as it runs: a cursor that only moves forward over one text. */
module TsCursor {
  import opened Wrappers
  import opened TsData
  import opened TsParser
  import opened Text

  class Parser {
    const src: string
    var pos: nat

    constructor (src: string)
      ensures this.src == src && pos == 0
    {
      this.src := src;
      pos := 0;
    }

    ghost predicate Valid()
      reads this
    {
      pos <= |src|
    }

    ghost function Rest(): string
      requires Valid()
      reads this
    {
      src[pos..]
    }

    /** The call took what the production says: the same value or error, and the same rest. */
    ghost predicate Took<T(!new)>(r: Result<T, ParseError>, p: Parse<T>)
      reads this
    {
      match p
      case Parsed(value, rest) => r == Ok(value) && Valid() && Rest() == rest
      case Failed(error) => r == Err(error)
    }

    predicate At(c: char)
      requires Valid()
      reads this
    {
      pos < |src| && src[pos] == c
    }

    predicate StartsWith(word: string)
      requires Valid()
      reads this
    {
      word <= src[pos..]
    }

    method SkipTrivia()
      requires Valid()
      modifies this
      ensures Valid() && old(pos) <= pos
      ensures Rest() == TsParser.SkipTrivia(old(Rest()))
    {
      while pos < |src|
        invariant Valid() && old(pos) <= pos
        invariant TsParser.SkipTrivia(Rest()) == TsParser.SkipTrivia(old(Rest()))
        decreases |src| - pos
      {
        if IsAsciiWhitespace(src[pos]) {
          assert src[pos..][1..] == src[pos + 1..];
          pos := pos + 1;
        } else if StartsWith("//") {
          SkipLine();
        } else {
          return;
        }
      }
    }

    method SkipLine()
      requires Valid() && pos < |src|
      modifies this
      ensures Valid() && old(pos) < pos
      ensures Rest() == TsParser.SkipLine(old(Rest()))
    {
      var line := src[pos] != '\n';
      assert src[pos..][1..] == src[pos + 1..];
      pos := pos + 1;
      while line && pos < |src|
        invariant Valid() && old(pos) < pos
        invariant (if line then TsParser.SkipLine(Rest()) else Rest()) == TsParser.SkipLine(old(Rest()))
        decreases |src| - pos
      {
        line := src[pos] != '\n';
        assert src[pos..][1..] == src[pos + 1..];
        pos := pos + 1;
      }
    }

    method SkipRun(p: char -> bool)
      requires Valid()
      modifies this
      ensures Valid() && pos == old(pos) + RunLength(old(Rest()), p)
    {
      while pos < |src| && p(src[pos])
        invariant Valid() && old(pos) <= pos
        invariant pos + RunLength(Rest(), p) == old(pos) + RunLength(old(Rest()), p)
        decreases |src| - pos
      {
        assert src[pos..][1..] == src[pos + 1..];
        pos := pos + 1;
      }
    }

    method SkipAngles()
      requires Valid() && At('<')
      modifies this
      ensures Valid() && old(pos) <= pos
      ensures Rest() == TsParser.SkipAngles(old(Rest()), 0)
    {
      var depth: nat := 0;
      while pos < |src|
        invariant Valid() && old(pos) <= pos
        invariant depth == 0 ==> At('<')
        invariant TsParser.SkipAngles(Rest(), depth) == TsParser.SkipAngles(old(Rest()), 0)
        decreases |src| - pos
      {
        var c := src[pos];
        assert src[pos..][1..] == src[pos + 1..];
        pos := pos + 1;
        if c == '<' {
          depth := depth + 1;
        } else if c == '>' {
          depth := depth - 1;
          if depth == 0 {
            return;
          }
        }
      }
    }

    method SkipAssertions()
      requires Valid()
      modifies this
      ensures Valid() && old(pos) <= pos
      ensures Rest() == TsParser.SkipAssertions(old(Rest()))
    {
      ghost var goal := TsParser.SkipAssertions(Rest());
      TriviaTwice(Rest());
      SkipTrivia();
      while StartsWith("satisfies") || StartsWith("as const")
        invariant Valid() && old(pos) <= pos
        invariant Rest() == TsParser.SkipTrivia(Rest())
        invariant TsParser.SkipAssertions(Rest()) == goal
        decreases |src| - pos
      {
        ghost var here := Rest();
        AssertionStep(here);
        if StartsWith("satisfies") {
          pos := pos + 9;
          assert Rest() == here[9..];
          SkipType();
        } else {
          pos := pos + 8;
          assert Rest() == here[8..];
        }
        ghost var next := Rest();
        assert TsParser.SkipAssertions(next) == goal;
        TriviaTwice(next);
        SkipTrivia();
      }
      AssertionStep(Rest());
    }

    /** One assertion taken off a text that starts with no trivia. */
    static lemma AssertionStep(s: string)
      requires TsParser.SkipTrivia(s) == s
      ensures "satisfies" <= s ==> TsParser.SkipAssertions(s) == TsParser.SkipAssertions(TsParser.SkipType(s[9..]))
      ensures "as const" <= s && !("satisfies" <= s)
              ==> TsParser.SkipAssertions(s) == TsParser.SkipAssertions(s[8..])
      ensures !("satisfies" <= s) && !("as const" <= s) ==> TsParser.SkipAssertions(s) == s
    {
    }

    static lemma {:induction false} TriviaTwice(s: string)
      ensures TsParser.SkipTrivia(TsParser.SkipTrivia(s)) == TsParser.SkipTrivia(s)
      ensures TsParser.SkipAssertions(TsParser.SkipTrivia(s)) == TsParser.SkipAssertions(s)
      decreases |s|
    {
      if s != [] && IsAsciiWhitespace(s[0]) {
        TriviaTwice(s[1..]);
      } else if "//" <= s {
        TriviaTwice(TsParser.SkipLine(s));
      }
    }

    method SkipType()
      requires Valid()
      modifies this
      ensures Valid() && old(pos) <= pos
      ensures Rest() == TsParser.SkipType(old(Rest()))
    {
      SkipTrivia();
      ghost var name := Rest();
      SkipRun(IsTypeChar);
      assert Rest() == name[RunLength(name, IsTypeChar)..];
      SkipTrivia();
      if At('<') {
        SkipAngles();
      }
    }

    method ParseEscape() returns (r: Result<char, ParseError>)
      requires Valid()
      modifies this
      ensures Took(r, TsParser.ParseEscape(old(Rest())))
      ensures r.Ok? ==> old(pos) < pos
    {
      if pos == |src| {
        return Err(UnterminatedEscape);
      }
      var esc := src[pos];
      pos := pos + 1;
      match Unescaped(esc)
      case Some(c) => return Ok(c);
      case None =>
        if esc != 'u' {
          return Err(UnsupportedEscape(esc));
        }
        if |src| < pos + 4 {
          return Err(TruncatedUnicode);
        }
        var hex := src[pos..pos + 4];
        assert hex == old(Rest())[1..5];
        pos := pos + 4;
        match HexValue(hex)
        case None => return Err(BadUnicode(hex));
        case Some(n) =>
          if !IsScalar(n) {
            return Err(NotScalar(hex));
          }
          assert src[pos..] == old(Rest())[5..];
          return Ok(n as char);
    }

    static lemma StringEnd(s: string, acc: string)
      requires s != [] && s[0] == '"'
      ensures TsParser.ParseString(s, acc) == Parsed(acc, s[1..])
    {
    }

    static lemma StringChar(s: string, acc: string)
      requires s != [] && s[0] != '"' && s[0] != '\\'
      ensures TsParser.ParseString(s, acc) == TsParser.ParseString(s[1..], acc + [s[0]])
    {
    }

    static lemma StringEscape(s: string, acc: string, e: Parse<char>)
      requires s != [] && s[0] == '\\' && e == TsParser.ParseEscape(s[1..])
      ensures e.Failed? ==> TsParser.ParseString(s, acc) == Failed(e.error)
      ensures e.Parsed? ==> TsParser.ParseString(s, acc) == TsParser.ParseString(e.rest, acc + [e.value])
    {
    }

    method ParseString() returns (r: Result<string, ParseError>)
      requires Valid() && At('"')
      modifies this
      ensures Took(r, TsParser.ParseString(old(Rest())[1..], []))
      ensures r.Ok? ==> old(pos) < pos
    {
      ghost var goal := TsParser.ParseString(Rest()[1..], []);
      pos := pos + 1;
      var text := [];
      while pos < |src|
        invariant Valid() && old(pos) < pos
        invariant TsParser.ParseString(Rest(), text) == goal
        decreases |src| - pos
      {
        var c := src[pos];
        ghost var here := Rest();
        pos := pos + 1;
        assert Rest() == here[1..];
        if c == '"' {
          StringEnd(here, text);
          return Ok(text);
        } else if c == '\\' {
          StringEscape(here, text, TsParser.ParseEscape(here[1..]));
          var escaped := ParseEscape();
          if escaped.Err? {
            return Err(escaped.error);
          }
          text := text + [escaped.value];
        } else {
          StringChar(here, text);
          text := text + [c];
        }
      }
      r := Err(UnterminatedString);
    }

    method ParseNumber() returns (text: string)
      requires Valid() && StartsNumeral(Rest())
      modifies this
      ensures Valid() && pos == old(pos) + NumeralLength(old(Rest()))
      ensures text == old(Rest())[..NumeralLength(old(Rest()))]
    {
      ghost var s := Rest();
      var start := pos;
      assert src[pos..][1..] == src[pos + 1..];
      pos := pos + 1;
      while pos < |src| && (IsDigit(src[pos]) || src[pos] in {'.', 'e', 'E', '+', '-'})
        invariant Valid() && start < pos
        invariant pos + NumeralTail(src[pos - 1], Rest()) == start + NumeralLength(s)
        decreases |src| - pos
      {
        if src[pos] in {'-', '+'} && src[pos - 1] != 'e' && src[pos - 1] != 'E' {
          break;
        }
        assert src[pos..][1..] == src[pos + 1..];
        pos := pos + 1;
      }
      text := src[start..pos];
    }

    method ParseKey() returns (r: Result<string, ParseError>)
      requires Valid()
      modifies this
      ensures Took(r, TsParser.ParseKey(old(Rest())))
      ensures r.Ok? ==> old(pos) < pos
    {
      if At('"') {
        r := ParseString();
      } else {
        var start := pos;
        ghost var s := Rest();
        SkipRun(IsKeyChar);
        if start == pos {
          return Err(ExpectedKey(src[pos..]));
        }
        assert src[start..pos] == s[..pos - start] && src[pos..] == s[pos - start..];
        r := Ok(src[start..pos]);
      }
    }

    method ParseValue() returns (r: Result<Val, ParseError>)
      requires Valid()
      modifies this
      ensures Took(r, TsParser.ParseValue(old(Rest())))
      ensures r.Ok? ==> old(pos) < pos
      decreases |src| - pos, 1
    {
      SkipTrivia();
      ghost var t := Rest();
      if pos == |src| {
        return Err(UnexpectedEnd);
      }
      if At('{') {
        r := ParseObject();
      } else if At('[') {
        r := ParseArray();
      } else if At('"') {
        var text := ParseString();
        r := if text.Ok? then Ok(Str(text.value)) else Err(text.error);
      } else if At('-') || IsDigit(src[pos]) {
        var text := ParseNumber();
        assert Rest() == t[NumeralLength(t)..];
        r := Ok(Num(text));
      } else if StartsWith("true") {
        pos := pos + 4;
        assert Rest() == t[4..];
        r := Ok(Bool(true));
      } else if StartsWith("false") {
        pos := pos + 5;
        assert Rest() == t[5..];
        r := Ok(Bool(false));
      } else if StartsWith("null") {
        pos := pos + 4;
        assert Rest() == t[4..];
        r := Ok(Null);
      } else {
        r := Err(Unsupported(src[pos..]));
      }
    }

    method ParseObject() returns (r: Result<Val, ParseError>)
      requires Valid() && At('{')
      modifies this
      ensures Took(r, ParseEntries(old(Rest())[1..], []))
      ensures r.Ok? ==> old(pos) < pos
      decreases |src| - pos, 0
    {
      ghost var goal := ParseEntries(Rest()[1..], []);
      pos := pos + 1;
      var entries: Entries := [];
      while true
        invariant Valid() && old(pos) < pos
        invariant ParseEntries(Rest(), entries) == goal
        decreases |src| - pos
      {
        SkipTrivia();
        if pos == |src| {
          return Err(EndInObject);
        }
        assert src[pos..][1..] == src[pos + 1..];
        if At('}') {
          pos := pos + 1;
          return Ok(Obj(entries));
        }
        if At(',') {
          pos := pos + 1;
          continue;
        }
        var entry := ParseEntry();
        if entry.Err? {
          return Err(entry.error);
        }
        entries := entries + [entry.value];
      }
    }

    method ParseEntry() returns (r: Result<(string, Val), ParseError>)
      requires Valid()
      modifies this
      ensures Took(r, TsParser.ParseEntry(old(Rest())))
      ensures r.Ok? ==> old(pos) < pos
      decreases |src| - pos, 2
    {
      var key := ParseKey();
      if key.Err? {
        return Err(key.error);
      }
      var value := ParseMember(key.value);
      if value.Err? {
        return Err(value.error);
      }
      r := Ok((key.value, value.value));
    }

    method ParseMember(key: string) returns (r: Result<Val, ParseError>)
      requires Valid()
      modifies this
      ensures Took(r, TsParser.ParseMember(key, old(Rest())))
      ensures r.Ok? ==> old(pos) < pos
      decreases |src| - pos, 2
    {
      SkipTrivia();
      if !At(':') {
        return Err(ExpectedColon(key, src[pos..]));
      }
      assert src[pos..][1..] == src[pos + 1..];
      pos := pos + 1;
      r := ParseValue();
      if r.Ok? {
        SkipAssertions();
      }
    }

    static lemma ItemRead(s: string, t: string, acc: seq<Val>)
      requires t == TsParser.SkipTrivia(s) && t != [] && t[0] != ']' && t[0] != ','
      requires TsParser.ParseValue(t).Parsed?
      ensures ParseItems(s, acc)
              == ParseItems(TsParser.SkipAssertions(TsParser.ParseValue(t).rest), acc + [TsParser.ParseValue(t).value])
    {
    }

    method ParseArray() returns (r: Result<Val, ParseError>)
      requires Valid() && At('[')
      modifies this
      ensures Took(r, ParseItems(old(Rest())[1..], []))
      ensures r.Ok? ==> old(pos) < pos
      decreases |src| - pos, 0
    {
      ghost var goal := ParseItems(Rest()[1..], []);
      pos := pos + 1;
      var items: seq<Val> := [];
      while true
        invariant Valid() && old(pos) < pos
        invariant ParseItems(Rest(), items) == goal
        decreases |src| - pos
      {
        ghost var here := Rest();
        SkipTrivia();
        if pos == |src| {
          return Err(EndInArray);
        }
        assert src[pos..][1..] == src[pos + 1..];
        if At(']') {
          pos := pos + 1;
          return Ok(Arr(items));
        }
        if At(',') {
          pos := pos + 1;
          continue;
        }
        ghost var t := Rest();
        var value := ParseValue();
        if value.Err? {
          return Err(value.error);
        }
        ItemRead(here, t, items);
        SkipAssertions();
        items := items + [value.value];
      }
    }
  }

  /** `parse_json`, run. */
  method RunParseJson(src: string) returns (r: Result<Val, ParseError>)
    ensures r == ParseJson(src)
  {
    var p := new Parser(src);
    assert p.Rest() == src;
    var value := p.ParseValue();
    if value.Err? {
      return value;
    }
    p.SkipTrivia();
    var tail := Trim(src[p.pos..]);
    if tail != [] {
      return Err(TrailingText(tail));
    }
    r := value;
  }

  /** `parse_module_object`, run. */
  method RunParseModuleObject(src: string) returns (r: Result<Val, ParseError>)
    ensures r == ParseModuleObject(src)
  {
    var start := Find(src, EXPORT);
    if start.None? {
      return Err(NoBinding);
    }
    var binding := src[start.value..];
    var eq := Find(binding, EQUALS);
    if eq.None? {
      return Err(NoEquals);
    }
    r := RunParseBound(binding[eq.value + 1..]);
  }

  /** The literal after the `=` and the tail of the module. */
  method RunParseBound(body: string) returns (r: Result<Val, ParseError>)
    ensures r == ParseBound(body)
  {
    var p := new Parser(body);
    assert p.Rest() == body;
    var value := p.ParseValue();
    if value.Err? {
      return value;
    }
    p.SkipAssertions();
    var tail := Trim(StripSemicolon(Trim(body[p.pos..])));
    if tail != [] {
      return Err(TrailingText(tail));
    }
    r := value;
  }
}
