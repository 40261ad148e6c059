/**
 The data-literal language as a grammar, independent of the scanner: a concrete syntax tree says
 how a value is written, choice by choice, and what may not follow its open-ended tokens. A text is
 given as the tree's text followed by a rest.
 */
module TsGrammar {
  import opened Wrappers
  import opened TsData

  // ----------------------------------------------------------------------------- trivia

  /** A white-space character, a line comment, or one that the end of the text cuts off. */
  datatype Blank = Space(c: char) | Comment(text: string) | LastComment(text: string)

  type Blanks = seq<Blank>

  predicate IsSpace(c: char) {
    c as int in {0x09, 0x0A, 0x0C, 0x0D, 0x20}
  }

  function BlankThen(b: Blank, rest: string): string {
    match b
    case Space(c) => [c] + rest
    case Comment(text) => ['/', '/'] + (text + (['\n'] + rest))
    case LastComment(text) => ['/', '/'] + (text + rest)
  }

  function BlanksThen(blanks: Blanks, rest: string): string {
    if blanks == [] then rest else BlankThen(blanks[0], BlanksThen(blanks[1..], rest))
  }

  predicate GoodBlank(b: Blank, rest: string) {
    match b
    case Space(c) => IsSpace(c)
    case Comment(text) => '\n' !in text
    case LastComment(text) => '\n' !in text && rest == []
  }

  predicate GoodBlanks(blanks: Blanks, rest: string) {
    blanks == [] || (GoodBlank(blanks[0], BlanksThen(blanks[1..], rest)) && GoodBlanks(blanks[1..], rest))
  }

  /** Neither white space nor a comment comes next. */
  predicate NoBlank(s: string) {
    s == [] || (!IsSpace(s[0]) && !(|s| >= 2 && s[0] == s[1] == '/'))
  }

  // ------------------------------------------------------------------------- assertions

  /** `as const`, or `satisfies`, a name, and bracketed arguments or none. */
  datatype Assertion =
    | AsConst(before: Blanks)
    | Satisfies(before: Blanks, gap: Blanks, name: string, mid: Blanks, args: string)

  /** The assertions after a value, and the blanks after them. */
  datatype Assertions = Assertions(list: seq<Assertion>, close: Blanks)

  const AS_CONST: string := ['a', 's', ' ', 'c', 'o', 'n', 's', 't']
  const SATISFIES: string := ['s', 'a', 't', 'i', 's', 'f', 'i', 'e', 's']

  predicate IsNameChar(c: char) {
    '0' <= c <= '9' || 'A' <= c <= 'Z' || 'a' <= c <= 'z' || c == '$' || c == '_'
  }

  predicate IsTypeNameChar(c: char) {
    IsNameChar(c) || c == '.'
  }

  /** How many angles are open after `s`. */
  function Level(s: string): int {
    if s == [] then 0
    else
      var last := s[|s| - 1];
      Level(s[..|s| - 1]) + (if last == '<' then 1 else if last == '>' then -1 else 0)
  }

  /** An opening angle, and all angles stay open before the end. */
  ghost predicate OpenAngles(args: string) {
    args != [] && args[0] == '<' && forall i | 0 < i < |args| :: Level(args[..i]) > 0
  }

  /** From an opening angle to the one that closes it. */
  ghost predicate ClosedAngles(args: string) {
    OpenAngles(args) && Level(args) == 0
  }

  ghost predicate CutAngles(args: string) {
    OpenAngles(args) && Level(args) > 0
  }

  function AssertionThen(a: Assertion, rest: string): string {
    match a
    case AsConst(before) => BlanksThen(before, AS_CONST + rest)
    case Satisfies(before, gap, name, mid, args) =>
      BlanksThen(before, SATISFIES + BlanksThen(gap, name + BlanksThen(mid, args + rest)))
  }

  function AssertionListThen(list: seq<Assertion>, rest: string): string {
    if list == [] then rest else AssertionThen(list[0], AssertionListThen(list[1..], rest))
  }

  function AssertionsThen(a: Assertions, rest: string): string {
    AssertionListThen(a.list, BlanksThen(a.close, rest))
  }

  predicate NoName(s: string) {
    s == [] || !IsTypeNameChar(s[0])
  }

  /** The name goes as far as it can; without arguments no angle follows; cut ones end the text. */
  ghost predicate GoodAssertion(a: Assertion, rest: string) {
    match a
    case AsConst(before) => GoodBlanks(before, AS_CONST + rest)
    case Satisfies(before, gap, name, mid, args) =>
      var afterName := BlanksThen(mid, args + rest);
      && GoodBlanks(before, SATISFIES + BlanksThen(gap, name + afterName))
      && GoodBlanks(gap, name + afterName) && NoBlank(name + afterName)
      && (forall i | 0 <= i < |name| :: IsTypeNameChar(name[i])) && NoName(afterName)
      && GoodBlanks(mid, args + rest) && NoBlank(args + rest)
      && (|| (args == [] && (rest == [] || rest[0] != '<'))
          || ClosedAngles(args)
          || (CutAngles(args) && rest == []))
  }

  ghost predicate GoodAssertionList(list: seq<Assertion>, rest: string) {
    list == [] || (GoodAssertion(list[0], AssertionListThen(list[1..], rest)) && GoodAssertionList(list[1..], rest))
  }

  /** No assertion comes next. */
  predicate NoAssertion(s: string) {
    !(SATISFIES <= s) && !(AS_CONST <= s)
  }

  ghost predicate GoodAssertions(a: Assertions, rest: string) {
    && GoodAssertionList(a.list, BlanksThen(a.close, rest))
    && GoodBlanks(a.close, rest) && NoBlank(rest) && NoAssertion(rest)
  }

  // ---------------------------------------------------------------------------- strings

  /** A character as it stands, a one-letter escape, or four characters after `\u`. */
  datatype Piece = Raw(c: char) | Short(letter: char) | Unicode(hex: string)

  function ShortMeaning(letter: char): Option<char> {
    match letter
    case '"' => Some('"')
    case '\\' => Some('\\')
    case '/' => Some('/')
    case 'b' => Some(8 as char)
    case 'f' => Some(12 as char)
    case 'n' => Some(10 as char)
    case 'r' => Some(13 as char)
    case 't' => Some(9 as char)
    case _ => None
  }

  function DigitOf(c: char): Option<nat> {
    match c
    case '0' => Some(0)
    case '1' => Some(1)
    case '2' => Some(2)
    case '3' => Some(3)
    case '4' => Some(4)
    case '5' => Some(5)
    case '6' => Some(6)
    case '7' => Some(7)
    case '8' => Some(8)
    case '9' => Some(9)
    case 'a' => Some(10)
    case 'b' => Some(11)
    case 'c' => Some(12)
    case 'd' => Some(13)
    case 'e' => Some(14)
    case 'f' => Some(15)
    case 'A' => Some(10)
    case 'B' => Some(11)
    case 'C' => Some(12)
    case 'D' => Some(13)
    case 'E' => Some(14)
    case 'F' => Some(15)
    case _ => None
  }

  predicate AllDigits(s: string) {
    forall i | 0 <= i < |s| :: DigitOf(s[i]).Some?
  }

  /** The last digit counts ones, the one before it sixteens, and so on. */
  function HexNumber(s: string): nat
    requires AllDigits(s)
  {
    if s == [] then 0 else 16 * HexNumber(s[..|s| - 1]) + DigitOf(s[|s| - 1]).value
  }

  /** Four hexadecimal digits, or a plus sign and three. */
  function HexDigitsOf(hex: string): string {
    if hex != [] && hex[0] == '+' then hex[1..] else hex
  }

  predicate GoodHex(hex: string) {
    && |hex| == 4 && AllDigits(HexDigitsOf(hex))
    && (HexNumber(HexDigitsOf(hex)) < 0xD800 || 0xDFFF < HexNumber(HexDigitsOf(hex)) <= 0x10_FFFF)
  }

  predicate GoodPiece(p: Piece) {
    match p
    case Raw(c) => c != '"' && c != '\\'
    case Short(letter) => ShortMeaning(letter).Some?
    case Unicode(hex) => GoodHex(hex)
  }

  predicate GoodPieces(pieces: seq<Piece>) {
    forall i | 0 <= i < |pieces| :: GoodPiece(pieces[i])
  }

  function PieceThen(p: Piece, rest: string): string {
    match p
    case Raw(c) => [c] + rest
    case Short(letter) => ['\\', letter] + rest
    case Unicode(hex) => ['\\', 'u'] + (hex + rest)
  }

  /** The pieces and the closing quote. */
  function PiecesThen(pieces: seq<Piece>, rest: string): string {
    if pieces == [] then ['"'] + rest else PieceThen(pieces[0], PiecesThen(pieces[1..], rest))
  }

  function Meaning(p: Piece): char
    requires GoodPiece(p)
  {
    match p
    case Raw(c) => c
    case Short(letter) => ShortMeaning(letter).value
    case Unicode(hex) => HexNumber(HexDigitsOf(hex)) as char
  }

  function Meanings(pieces: seq<Piece>): string
    requires GoodPieces(pieces)
  {
    seq(|pieces|, i requires 0 <= i < |pieces| => Meaning(pieces[i]))
  }

  // --------------------------------------------------------------------------- numerals

  predicate IsMark(c: char) {
    '0' <= c <= '9' || c == '.' || c == 'e' || c == 'E'
  }

  /** A sign counts as part of a numeral only right after an exponent marker. */
  predicate GoesOn(prev: char, c: char) {
    IsMark(c) || ((c == '+' || c == '-') && (prev == 'e' || prev == 'E'))
  }

  /** A minus sign or a digit, and then every character goes on from the one before it. */
  predicate GoodNumeral(digits: string) {
    && digits != [] && (digits[0] == '-' || '0' <= digits[0] <= '9')
    && forall i | 1 <= i < |digits| :: GoesOn(digits[i - 1], digits[i])
  }

  // ----------------------------------------------------------------------------- values

  datatype Key = Bare(name: string) | Quoted(pieces: seq<Piece>)

  datatype Node =
    | Literal(before: Blanks, pieces: seq<Piece>)
    | Numeral(before: Blanks, digits: string)
    | Truth(before: Blanks, b: bool)
    | Nothing(before: Blanks)
    | List(before: Blanks, items: seq<Item>, close: Blanks)
    | Record(before: Blanks, members: seq<Member>, close: Blanks)

  /** A comma stands anywhere between items, and any number of them. */
  datatype Item = Comma(before: Blanks) | Element(node: Node, after: Assertions)

  datatype Member =
    | Separator(before: Blanks)
    | Entry(before: Blanks, key: Key, colon: Blanks, node: Node, after: Assertions)

  function NodeThen(node: Node, rest: string): string
    decreases node
  {
    match node
    case Literal(before, pieces) => BlanksThen(before, ['"'] + PiecesThen(pieces, rest))
    case Numeral(before, digits) => BlanksThen(before, digits + rest)
    case Truth(before, b) => BlanksThen(before, (if b then "true" else "false") + rest)
    case Nothing(before) => BlanksThen(before, "null" + rest)
    case List(before, items, close) => BlanksThen(before, ['['] + ItemsThen(items, close, rest))
    case Record(before, members, close) => BlanksThen(before, ['{'] + MembersThen(members, close, rest))
  }

  /** The items, and the closing bracket after its blanks. */
  function ItemsThen(items: seq<Item>, close: Blanks, rest: string): string
    decreases items
  {
    if items == [] then BlanksThen(close, [']'] + rest)
    else
      var more := ItemsThen(items[1..], close, rest);
      match items[0]
      case Comma(before) => BlanksThen(before, [','] + more)
      case Element(node, after) =>
        assert node < items[0];
        NodeThen(node, AssertionsThen(after, more))
  }

  function KeyThen(key: Key, rest: string): string {
    match key
    case Bare(name) => name + rest
    case Quoted(pieces) => ['"'] + PiecesThen(pieces, rest)
  }

  function MembersThen(members: seq<Member>, close: Blanks, rest: string): string
    decreases members
  {
    if members == [] then BlanksThen(close, ['}'] + rest)
    else
      var more := MembersThen(members[1..], close, rest);
      match members[0]
      case Separator(before) => BlanksThen(before, [','] + more)
      case Entry(before, key, colon, node, after) =>
        BlanksThen(before, KeyThen(key, BlanksThen(colon, [':'] + NodeThen(node, AssertionsThen(after, more)))))
  }

  /** A bare key has a character and goes as far as it can. */
  predicate GoodKey(key: Key, rest: string) {
    match key
    case Bare(name) =>
      && name != [] && (forall i | 0 <= i < |name| :: IsNameChar(name[i]))
      && (rest == [] || !IsNameChar(rest[0]))
    case Quoted(pieces) => GoodPieces(pieces)
  }

  ghost predicate GoodNode(node: Node, rest: string)
    decreases node
  {
    match node
    case Literal(before, pieces) => GoodBlanks(before, ['"'] + PiecesThen(pieces, rest)) && GoodPieces(pieces)
    case Numeral(before, digits) =>
      && GoodBlanks(before, digits + rest) && GoodNumeral(digits)
      && (rest == [] || !GoesOn(digits[|digits| - 1], rest[0]))
    case Truth(before, b) => GoodBlanks(before, (if b then "true" else "false") + rest)
    case Nothing(before) => GoodBlanks(before, "null" + rest)
    case List(before, items, close) =>
      GoodBlanks(before, ['['] + ItemsThen(items, close, rest)) && GoodItems(items, close, rest)
    case Record(before, members, close) =>
      GoodBlanks(before, ['{'] + MembersThen(members, close, rest)) && GoodMembers(members, close, rest)
  }

  ghost predicate GoodItems(items: seq<Item>, close: Blanks, rest: string)
    decreases items
  {
    if items == [] then GoodBlanks(close, [']'] + rest)
    else
      var more := ItemsThen(items[1..], close, rest);
      && GoodItems(items[1..], close, rest)
      && match items[0]
         case Comma(before) => GoodBlanks(before, [','] + more)
         case Element(node, after) =>
           assert node < items[0];
           GoodNode(node, AssertionsThen(after, more)) && GoodAssertions(after, more)
  }

  ghost predicate GoodMembers(members: seq<Member>, close: Blanks, rest: string)
    decreases members
  {
    if members == [] then GoodBlanks(close, ['}'] + rest)
    else
      var more := MembersThen(members[1..], close, rest);
      && GoodMembers(members[1..], close, rest)
      && match members[0]
         case Separator(before) => GoodBlanks(before, [','] + more)
         case Entry(before, key, colon, node, after) =>
           var value := NodeThen(node, AssertionsThen(after, more));
           && GoodBlanks(before, KeyThen(key, BlanksThen(colon, [':'] + value)))
           && GoodKey(key, BlanksThen(colon, [':'] + value)) && GoodBlanks(colon, [':'] + value)
           && GoodNode(node, AssertionsThen(after, more)) && GoodAssertions(after, more)
  }

  // ------------------------------------------------------------------------- the meaning

  predicate PiecesMean(pieces: seq<Piece>, text: string) {
    GoodPieces(pieces) && Meanings(pieces) == text
  }

  predicate KeyMeans(key: Key, text: string) {
    match key
    case Bare(name) => text == name
    case Quoted(pieces) => PiecesMean(pieces, text)
  }

  /** The node is a way to write the value. */
  ghost predicate Means(node: Node, v: Val)
    decreases node
  {
    match node
    case Literal(_, pieces) => v.Str? && PiecesMean(pieces, v.s)
    case Numeral(_, digits) => v == Num(digits)
    case Truth(_, b) => v == Bool(b)
    case Nothing(_) => v == Null
    case List(_, items, _) => v.Arr? && ItemsMean(items, v.items)
    case Record(_, members, _) => v.Obj? && MembersMean(members, v.entries)
  }

  /** The elements, in order, are the values. */
  ghost predicate ItemsMean(items: seq<Item>, values: seq<Val>)
    decreases items
  {
    if items == [] then values == []
    else if items[0].Comma? then ItemsMean(items[1..], values)
    else
      assert items[0].node < items[0];
      values != [] && Means(items[0].node, values[0]) && ItemsMean(items[1..], values[1..])
  }

  ghost predicate MembersMean(members: seq<Member>, entries: Entries)
    decreases members
  {
    if members == [] then entries == []
    else if members[0].Separator? then MembersMean(members[1..], entries)
    else
      && entries != []
      && KeyMeans(members[0].key, entries[0].0) && Means(members[0].node, entries[0].1)
      && MembersMean(members[1..], entries[1..])
  }
}
