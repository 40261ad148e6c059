/**
 The grammar of pi's data-literal subset. Each production is a function from the text that is left
 to its value and the text left after it; the class of `TsCursor` computes these functions with a
 cursor.
 */
module TsParser {
  import opened Wrappers
  import opened TsData
  import opened Text

  /** `left` is the text left where the error was met, and so says where that is. */
  datatype ParseError =
    | UnexpectedEnd
    | Unsupported(left: string)
    | EndInObject
    | EndInArray
    | ExpectedColon(key: string, left: string)
    | ExpectedKey(left: string)
    | UnterminatedString
    | UnterminatedEscape
    | TruncatedUnicode
    | BadUnicode(hex: string)
    | NotScalar(hex: string)
    | UnsupportedEscape(c: char)
    | TrailingText(tail: string)
    | NoBinding
    | NoEquals

  datatype Parse<+T> = Parsed(value: T, rest: string) | Failed(error: ParseError)

  // ----------------------------------------------------------------------------- trivia

  predicate IsAsciiWhitespace(c: char) {
    c == ' ' || c == '\n' || c == '\r' || c == TAB || c == FORM_FEED
  }

  predicate IsDigit(c: char) {
    '0' <= c <= '9'
  }

  predicate IsAlphanumeric(c: char) {
    IsDigit(c) || 'a' <= c <= 'z' || 'A' <= c <= 'Z'
  }

  predicate IsKeyChar(c: char) {
    IsAlphanumeric(c) || c == '_' || c == '$'
  }

  predicate IsTypeChar(c: char) {
    IsKeyChar(c) || c == '.'
  }

  function SkipLine(s: string): (r: string)
    ensures |r| <= |s| && (s != [] ==> |r| < |s|)
  {
    if s == [] then [] else if s[0] == '\n' then s[1..] else SkipLine(s[1..])
  }

  function SkipTrivia(s: string): (r: string)
    ensures |r| <= |s|
    decreases |s|
  {
    if s != [] && IsAsciiWhitespace(s[0]) then SkipTrivia(s[1..])
    else if "//" <= s then SkipTrivia(SkipLine(s))
    else s
  }

  /** The length of the longest start of `s` whose characters all satisfy `p`. */
  function RunLength(s: string, p: char -> bool): (n: nat)
    ensures n <= |s|
    ensures forall i | 0 <= i < n :: p(s[i])
    ensures n < |s| ==> !p(s[n])
  {
    if s == [] || !p(s[0]) then 0 else 1 + RunLength(s[1..], p)
  }

  /** Past a bracketed type argument: `<` and `>` are balanced, and the end of the text stops it. */
  function SkipAngles(s: string, depth: nat): (r: string)
    requires depth == 0 ==> s != [] && s[0] == '<'
    ensures |r| <= |s|
    decreases |s|
  {
    if s == [] then []
    else if s[0] == '<' then SkipAngles(s[1..], depth + 1)
    else if s[0] == '>' then (if depth == 1 then s[1..] else SkipAngles(s[1..], depth - 1))
    else SkipAngles(s[1..], depth)
  }

  /** The `<Type>` after `satisfies`: an identifier and an optional type argument. */
  function SkipType(s: string): (r: string)
    ensures |r| <= |s|
  {
    var name := SkipTrivia(s);
    var t := SkipTrivia(name[RunLength(name, IsTypeChar)..]);
    if t != [] && t[0] == '<' then SkipAngles(t, 0) else t
  }

  function SkipAssertions(s: string): (r: string)
    ensures |r| <= |s|
    decreases |s|
  {
    var t := SkipTrivia(s);
    if "satisfies" <= t then SkipAssertions(SkipType(t[9..]))
    else if "as const" <= t then SkipAssertions(t[8..])
    else t
  }

  // ---------------------------------------------------------------------------- literals

  function HexDigit(c: char): Option<nat> {
    if '0' <= c <= '9' then Some(c as nat - '0' as nat)
    else if 'a' <= c <= 'f' then Some(c as nat - 'a' as nat + 10)
    else if 'A' <= c <= 'F' then Some(c as nat - 'A' as nat + 10)
    else None
  }

  function HexDigits(s: string, acc: nat): Option<nat> {
    if s == [] then Some(acc)
    else if HexDigit(s[0]).None? then None
    else HexDigits(s[1..], 16 * acc + HexDigit(s[0]).value)
  }

  /** `u32::from_str_radix(_, 16)`: one leading `+` is accepted, and there must be a digit. */
  function HexValue(s: string): Option<nat> {
    var digits := if "+" <= s then s[1..] else s;
    if digits == [] then None else HexDigits(digits, 0)
  }

  function Unescaped(c: char): Option<char> {
    match c
    case '"' => Some('"')
    case '\\' => Some('\\')
    case '/' => Some('/')
    case 'n' => Some('\n')
    case 'r' => Some('\r')
    case 't' => Some(TAB)
    case 'b' => Some(BACKSPACE)
    case 'f' => Some(FORM_FEED)
    case _ => None
  }

  predicate IsScalar(n: nat) {
    n < 0xD800 || 0xE000 <= n < 0x11_0000
  }

  /** One character of a string literal, the escape already introduced by a backslash. */
  function ParseEscape(s: string): (r: Parse<char>)
    ensures r.Parsed? ==> |r.rest| < |s|
  {
    if s == [] then Failed(UnterminatedEscape)
    else if Unescaped(s[0]).Some? then Parsed(Unescaped(s[0]).value, s[1..])
    else if s[0] != 'u' then Failed(UnsupportedEscape(s[0]))
    else if |s| < 5 then Failed(TruncatedUnicode)
    else
      var hex := s[1..5];
      if HexValue(hex).None? then Failed(BadUnicode(hex))
      else if !IsScalar(HexValue(hex).value) then Failed(NotScalar(hex))
      else Parsed(HexValue(hex).value as char, s[5..])
  }

  /** The rest of a string literal after its opening quote. */
  function ParseString(s: string, acc: string): (r: Parse<string>)
    ensures r.Parsed? ==> |r.rest| < |s|
    decreases |s|
  {
    if s == [] then Failed(UnterminatedString)
    else if s[0] == '"' then Parsed(acc, s[1..])
    else if s[0] == '\\' then
      match ParseEscape(s[1..])
      case Parsed(c, rest) => ParseString(rest, acc + [c])
      case Failed(e) => Failed(e)
    else ParseString(s[1..], acc + [s[0]])
  }

  /** How far a numeral goes on after `prev`; a sign counts only right after an exponent marker. */
  function NumeralTail(prev: char, s: string): (n: nat)
    ensures n <= |s|
    decreases |s|
  {
    if s == [] then 0
    else if IsDigit(s[0]) || s[0] == '.' || s[0] == 'e' || s[0] == 'E' then 1 + NumeralTail(s[0], s[1..])
    else if (s[0] == '+' || s[0] == '-') && (prev == 'e' || prev == 'E') then 1 + NumeralTail(s[0], s[1..])
    else 0
  }

  predicate StartsNumeral(s: string) {
    s != [] && (s[0] == '-' || IsDigit(s[0]))
  }

  function NumeralLength(s: string): (n: nat)
    requires StartsNumeral(s)
    ensures 0 < n <= |s|
  {
    1 + NumeralTail(s[0], s[1..])
  }

  function ParseIdentifier(s: string): (r: Parse<string>)
    ensures r.Parsed? ==> |r.rest| < |s|
  {
    var n := RunLength(s, IsKeyChar);
    if n == 0 then Failed(ExpectedKey(s)) else Parsed(s[..n], s[n..])
  }

  function ParseKey(s: string): (r: Parse<string>)
    ensures r.Parsed? ==> |r.rest| < |s|
  {
    if s != [] && s[0] == '"' then ParseString(s[1..], []) else ParseIdentifier(s)
  }

  // ------------------------------------------------------------------------------ values

  /** A value. Whatever it is, it takes at least one character. */
  function ParseValue(s: string): (r: Parse<Val>)
    ensures r.Parsed? ==> |r.rest| < |s|
    decreases |s|, 1
  {
    var t := SkipTrivia(s);
    if t == [] then Failed(UnexpectedEnd)
    else if t[0] == '{' then ParseEntries(t[1..], [])
    else if t[0] == '[' then ParseItems(t[1..], [])
    else if t[0] == '"' then
      match ParseString(t[1..], [])
      case Parsed(text, rest) => Parsed(Str(text), rest)
      case Failed(e) => Failed(e)
    else if StartsNumeral(t) then Parsed(Num(t[..NumeralLength(t)]), t[NumeralLength(t)..])
    else if "true" <= t then Parsed(Bool(true), t[4..])
    else if "false" <= t then Parsed(Bool(false), t[5..])
    else if "null" <= t then Parsed(Null, t[4..])
    else Failed(Unsupported(t))
  }

  /** The colon and the value that follow a key, and the assertions after them. */
  function ParseMember(key: string, s: string): (r: Parse<Val>)
    ensures r.Parsed? ==> |r.rest| < |s|
    decreases |s|, 2
  {
    var u := SkipTrivia(s);
    if u == [] || u[0] != ':' then Failed(ExpectedColon(key, u))
    else
      match ParseValue(u[1..])
      case Failed(e) => Failed(e)
      case Parsed(value, rest) => Parsed(value, SkipAssertions(rest))
  }

  function ParseEntry(s: string): (r: Parse<(string, Val)>)
    ensures r.Parsed? ==> |r.rest| < |s|
    decreases |s|, 0
  {
    match ParseKey(s)
    case Failed(e) => Failed(e)
    case Parsed(key, afterKey) =>
      match ParseMember(key, afterKey)
      case Failed(e) => Failed(e)
      case Parsed(value, rest) => Parsed((key, value), rest)
  }

  /** The rest of an object after `{` and the entries read so far. */
  function ParseEntries(s: string, acc: Entries): (r: Parse<Val>)
    ensures r.Parsed? ==> |r.rest| < |s|
    decreases |s|, 2
  {
    var t := SkipTrivia(s);
    if t == [] then Failed(EndInObject)
    else if t[0] == '}' then Parsed(Obj(acc), t[1..])
    else if t[0] == ',' then ParseEntries(t[1..], acc)
    else
      match ParseEntry(t)
      case Failed(e) => Failed(e)
      case Parsed(entry, rest) => ParseEntries(rest, acc + [entry])
  }

  /** The rest of an array after `[` and the items read so far. */
  function ParseItems(s: string, acc: seq<Val>): (r: Parse<Val>)
    ensures r.Parsed? ==> |r.rest| < |s|
    decreases |s|, 2
  {
    var t := SkipTrivia(s);
    if t == [] then Failed(EndInArray)
    else if t[0] == ']' then Parsed(Arr(acc), t[1..])
    else if t[0] == ',' then ParseItems(t[1..], acc)
    else
      match ParseValue(t)
      case Failed(e) => Failed(e)
      case Parsed(value, rest) => ParseItems(SkipAssertions(rest), acc + [value])
  }

  // --------------------------------------------------------------------------- documents

  function ParseJson(src: string): Result<Val, ParseError> {
    match ParseValue(src)
    case Failed(e) => Err(e)
    case Parsed(value, rest) =>
      var tail := Trim(SkipTrivia(rest));
      if tail != [] then Err(TrailingText(tail)) else Ok(value)
  }

  /** Where `needle` first occurs in `s`. */
  function Find(s: string, needle: string): (r: Option<nat>)
    ensures r.Some? ==> r.value + |needle| <= |s| && needle <= s[r.value..]
    ensures r.Some? ==> forall i | 0 <= i < r.value :: !(needle <= s[i..])
    ensures r.None? ==> forall i | 0 <= i <= |s| :: !(needle <= s[i..])
  {
    if needle <= s then Some(0)
    else if s == [] then None
    else
      match Find(s[1..], needle)
      case None =>
        assert forall i | 1 <= i <= |s| :: s[i..] == s[1..][i - 1..];
        None
      case Some(i) =>
        assert forall j | 1 <= j <= |s| :: s[j..] == s[1..][j - 1..];
        Some(i + 1)
  }

  function StripSemicolon(s: string): string {
    if ";" <= s then s[1..] else s
  }

  const EXPORT := "export const"
  const EQUALS := "="

  function ParseModuleObject(src: string): Result<Val, ParseError> {
    match Find(src, EXPORT)
    case None => Err(NoBinding)
    case Some(start) => ParseBinding(src[start..])
  }

  function ParseBinding(binding: string): Result<Val, ParseError> {
    match Find(binding, EQUALS)
    case None => Err(NoEquals)
    case Some(eq) => ParseBound(binding[eq + 1..])
  }

  /** The literal after the `=`; nothing but assertions and one semicolon may follow it. */
  function ParseBound(body: string): Result<Val, ParseError> {
    match ParseValue(body)
    case Failed(e) => Err(e)
    case Parsed(value, rest) =>
      var tail := Trim(StripSemicolon(Trim(SkipAssertions(rest))));
      if tail != [] then Err(TrailingText(tail)) else Ok(value)
  }
}
