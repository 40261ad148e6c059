/**
 The scanner accepts the texts of the grammar's trees and no others, and gives the value they mean.
 */
module TsAcceptance {
  import opened Wrappers
  import opened TsData
  import opened TsParser
  import opened TsGrammar
  import opened TsLexemes
  import opened Text

  // ----------------------------------------------------------- one step of each production

  lemma SameValue(s: string, t: string)
    requires SkipTrivia(s) == SkipTrivia(t)
    ensures ParseValue(s) == ParseValue(t)
  {
  }

  lemma ItemsEnd(s: string, rest: string, acc: seq<Val>)
    requires SkipTrivia(s) == [']'] + rest
    ensures ParseItems(s, acc) == Parsed(Arr(acc), rest)
  {
    assert ([']'] + rest)[1..] == rest;
  }

  lemma ItemsPastComma(s: string, rest: string, acc: seq<Val>)
    requires SkipTrivia(s) == [','] + rest
    ensures ParseItems(s, acc) == ParseItems(rest, acc)
  {
    assert ([','] + rest)[1..] == rest;
  }

  /** A value starts with none of the characters that the loops look for first. */
  lemma ParsedStarts(s: string)
    requires ParseValue(s).Parsed?
    ensures SkipTrivia(s) != [] && SkipTrivia(s)[0] !in {',', ']', '}', ':'}
  {
  }

  lemma TriviaTwice(s: string)
    ensures SkipTrivia(SkipTrivia(s)) == SkipTrivia(s)
  {
    var blanks := BlanksApart(s);
    NoBlankStays(SkipTrivia(s));
  }

  lemma ItemsPastValue(s: string, item: Val, after: string, acc: seq<Val>)
    requires ParseValue(s) == Parsed(item, after)
    ensures ParseItems(s, acc) == ParseItems(SkipAssertions(after), acc + [item])
  {
    TriviaTwice(s);
    SameValue(SkipTrivia(s), s);
    ParsedStarts(s);
  }

  lemma EntriesEnd(s: string, rest: string, acc: Entries)
    requires SkipTrivia(s) == ['}'] + rest
    ensures ParseEntries(s, acc) == Parsed(Obj(acc), rest)
  {
    assert (['}'] + rest)[1..] == rest;
  }

  lemma EntriesPastComma(s: string, rest: string, acc: Entries)
    requires SkipTrivia(s) == [','] + rest
    ensures ParseEntries(s, acc) == ParseEntries(rest, acc)
  {
    assert ([','] + rest)[1..] == rest;
  }

  lemma EntriesPastEntry(s: string, t: string, entry: (string, Val), rest: string, acc: Entries)
    requires SkipTrivia(s) == t && t != [] && t[0] !in {',', '}'} && ParseEntry(t) == Parsed(entry, rest)
    ensures ParseEntries(s, acc) == ParseEntries(rest, acc + [entry])
  {
  }

  lemma EntryIsRead(s: string, key: string, afterKey: string, body: string, value: Val, after: string)
    requires ParseKey(s) == Parsed(key, afterKey) && SkipTrivia(afterKey) == [':'] + body
    requires ParseValue(body) == Parsed(value, after)
    ensures ParseEntry(s) == Parsed((key, value), SkipAssertions(after))
  {
    assert ([':'] + body)[1..] == body;
  }

  // --------------------------------------------------------------- every tree is accepted

  lemma TokenStays(blanks: Blanks, token: string)
    requires GoodBlanks(blanks, token) && NoBlank(token)
    ensures SkipTrivia(BlanksThen(blanks, token)) == token
  {
    BlanksAreSkipped(blanks, token);
    NoBlankStays(token);
  }

  lemma LiteralIsRead(s: string, pieces: seq<Piece>, rest: string)
    requires SkipTrivia(s) == ['"'] + PiecesThen(pieces, rest) && GoodPieces(pieces)
    ensures ParseValue(s) == Parsed(Str(Meanings(pieces)), rest)
  {
    QuoteApart(pieces, rest);
    PiecesAreRead(pieces, rest, []);
    assert [] + Meanings(pieces) == Meanings(pieces);
  }

  lemma NumeralIsRead(s: string, digits: string, rest: string)
    requires SkipTrivia(s) == digits + rest && GoodNumeral(digits)
    requires rest == [] || !GoesOn(digits[|digits| - 1], rest[0])
    ensures ParseValue(s) == Parsed(Num(digits), rest)
  {
    NumeralIsTaken(digits, rest);
    assert (digits + rest)[0] == digits[0];
  }

  lemma TruthIsRead(s: string, b: bool, rest: string)
    requires SkipTrivia(s) == (if b then "true" else "false") + rest
    ensures ParseValue(s) == Parsed(Bool(b), rest)
  {
    var t := SkipTrivia(s);
    if b {
      assert t[..4] == "true" && t[4..] == rest && t[0] == 't';
    } else {
      assert t[..5] == "false" && t[5..] == rest && t[0] == 'f';
    }
  }

  lemma NothingIsRead(s: string, rest: string)
    requires SkipTrivia(s) == "null" + rest
    ensures ParseValue(s) == Parsed(Null, rest)
  {
    var t := SkipTrivia(s);
    assert t[..4] == "null" && t[4..] == rest && t[0] == 'n';
  }

  lemma {:induction false} TreeIsRead(node: Node, rest: string, v: Val)
    requires GoodNode(node, rest) && Means(node, v)
    ensures ParseValue(NodeThen(node, rest)) == Parsed(v, rest)
    decreases node, 0
  {
    var s := NodeThen(node, rest);
    match node
    case Literal(before, pieces) =>
      TokenStays(before, ['"'] + PiecesThen(pieces, rest));
      LiteralIsRead(s, pieces, rest);
    case Numeral(before, digits) =>
      assert NoBlank(digits + rest) by {
        assert (digits + rest)[0] == digits[0];
      }
      TokenStays(before, digits + rest);
      NumeralIsRead(s, digits, rest);
    case Truth(before, b) =>
      TokenStays(before, (if b then "true" else "false") + rest);
      TruthIsRead(s, b, rest);
    case Nothing(before) =>
      TokenStays(before, "null" + rest);
      NothingIsRead(s, rest);
    case List(before, items, close) =>
      var body := ItemsThen(items, close, rest);
      TokenStays(before, ['['] + body);
      assert (['['] + body)[1..] == body;
      ItemsAreRead(items, close, rest, v.items, []);
      assert [] + v.items == v.items;
    case Record(before, members, close) =>
      var body := MembersThen(members, close, rest);
      TokenStays(before, ['{'] + body);
      assert (['{'] + body)[1..] == body;
      MembersAreRead(members, close, rest, v.entries, []);
      assert [] + v.entries == v.entries;
  }

  lemma MoveFirst<T>(acc: seq<T>, s: seq<T>)
    requires s != []
    ensures acc + [s[0]] + s[1..] == acc + s
  {
  }

  lemma {:induction false} ItemsAreRead(items: seq<Item>, close: Blanks, rest: string, values: seq<Val>, acc: seq<Val>)
    requires GoodItems(items, close, rest) && ItemsMean(items, values)
    ensures ParseItems(ItemsThen(items, close, rest), acc) == Parsed(Arr(acc + values), rest)
    decreases items, 1
  {
    var s := ItemsThen(items, close, rest);
    if items == [] {
      TokenStays(close, [']'] + rest);
      ItemsEnd(s, rest, acc);
      assert acc + values == acc;
    } else {
      var more := ItemsThen(items[1..], close, rest);
      match items[0]
      case Comma(before) =>
        TokenStays(before, [','] + more);
        ItemsPastComma(s, more, acc);
        ItemsAreRead(items[1..], close, rest, values, acc);
      case Element(node, after) =>
        assert node < items[0];
        TreeIsRead(node, AssertionsThen(after, more), values[0]);
        ItemsPastValue(s, values[0], AssertionsThen(after, more), acc);
        AssertionsAreSkipped(after, more);
        ItemsAreRead(items[1..], close, rest, values[1..], acc + [values[0]]);
        MoveFirst(acc, values);
    }
  }

  lemma {:induction false} MembersAreRead(
    members: seq<Member>, close: Blanks, rest: string, entries: Entries, acc: Entries)
    requires GoodMembers(members, close, rest) && MembersMean(members, entries)
    ensures ParseEntries(MembersThen(members, close, rest), acc) == Parsed(Obj(acc + entries), rest)
    decreases members, 1
  {
    var s := MembersThen(members, close, rest);
    if members == [] {
      TokenStays(close, ['}'] + rest);
      EntriesEnd(s, rest, acc);
      assert acc + entries == acc;
    } else {
      var more := MembersThen(members[1..], close, rest);
      match members[0]
      case Separator(before) =>
        TokenStays(before, [','] + more);
        EntriesPastComma(s, more, acc);
        MembersAreRead(members[1..], close, rest, entries, acc);
      case Entry(before, key, colon, node, after) =>
        var value := NodeThen(node, AssertionsThen(after, more));
        var text := KeyThen(key, BlanksThen(colon, [':'] + value));
        KeyIsRead(key, entries[0].0, BlanksThen(colon, [':'] + value));
        TokenStays(before, text);
        TokenStays(colon, [':'] + value);
        assert node < members[0];
        TreeIsRead(node, AssertionsThen(after, more), entries[0].1);
        EntryIsRead(text, entries[0].0, BlanksThen(colon, [':'] + value), value, entries[0].1,
                    AssertionsThen(after, more));
        AssertionsAreSkipped(after, more);
        EntriesPastEntry(s, text, (entries[0].0, entries[0].1), more, acc);
        MembersAreRead(members[1..], close, rest, entries[1..], acc + [entries[0]]);
        MoveFirst(acc, entries);
    }
  }

  // ------------------------------------------------------- what is accepted has a tree

  lemma Starts(t: string, word: string)
    requires word <= t
    ensures t == word + t[|word|..]
  {
  }

  /** Whatever the scanner reads is the text of a tree that means the value. */
  lemma {:induction false} TreeApart(s: string) returns (node: Node)
    requires ParseValue(s).Parsed?
    ensures s == NodeThen(node, ParseValue(s).rest)
    ensures GoodNode(node, ParseValue(s).rest) && Means(node, ParseValue(s).value)
    decreases |s|, 1
  {
    var before := BlanksApart(s);
    var t, rest := SkipTrivia(s), ParseValue(s).rest;
    assert t == [t[0]] + t[1..];
    if t[0] == '{' {
      var members, close, entries := MembersApart(t[1..], []);
      assert [] + entries == entries;
      node := Record(before, members, close);
    } else if t[0] == '[' {
      var items, close, values := ItemsApart(t[1..], []);
      assert [] + values == values;
      node := List(before, items, close);
    } else if t[0] == '"' {
      var pieces := PiecesApart(t[1..], []);
      assert [] + Meanings(pieces) == Meanings(pieces);
      node := Literal(before, pieces);
    } else if StartsNumeral(t) {
      NumeralApart(t);
      node := Numeral(before, t[..NumeralLength(t)]);
    } else {
      node := WordApart(s, t, before);
    }
  }

  lemma WordApart(s: string, t: string, before: Blanks) returns (node: Node)
    requires t == SkipTrivia(s) && s == BlanksThen(before, t) && GoodBlanks(before, t)
    requires ParseValue(s).Parsed? && t[0] !in {'{', '[', '"'} && !StartsNumeral(t)
    ensures s == NodeThen(node, ParseValue(s).rest)
    ensures GoodNode(node, ParseValue(s).rest) && Means(node, ParseValue(s).value)
  {
    if "true" <= t {
      Starts(t, "true");
      node := Truth(before, true);
    } else if "false" <= t {
      Starts(t, "false");
      node := Truth(before, false);
    } else {
      Starts(t, "null");
      node := Nothing(before);
    }
  }

  lemma {:induction false} ItemsApart(s: string, acc: seq<Val>)
    returns (items: seq<Item>, close: Blanks, values: seq<Val>)
    requires ParseItems(s, acc).Parsed?
    ensures s == ItemsThen(items, close, ParseItems(s, acc).rest) && GoodItems(items, close, ParseItems(s, acc).rest)
    ensures ItemsMean(items, values) && ParseItems(s, acc).value == Arr(acc + values)
    decreases |s|, 2
  {
    var before := BlanksApart(s);
    var t := SkipTrivia(s);
    assert t == [t[0]] + t[1..];
    if t[0] == ']' {
      items, close, values := [], before, [];
      assert acc + [] == acc;
    } else if t[0] == ',' {
      var more;
      more, close, values := ItemsApart(t[1..], acc);
      items := [Comma(before)] + more;
      assert items[1..] == more;
    } else {
      TriviaTwice(s);
      SameValue(t, s);
      var node := TreeApart(s);
      var item, after := ParseValue(s).value, ParseValue(s).rest;
      var assertions := AssertionsApart(after);
      var more, others;
      more, close, others := ItemsApart(SkipAssertions(after), acc + [item]);
      items, values := [Element(node, assertions)] + more, [item] + others;
      assert items[1..] == more && values[1..] == others;
      MoveFirst(acc, values);
    }
  }

  lemma {:induction false} MembersApart(s: string, acc: Entries)
    returns (members: seq<Member>, close: Blanks, entries: Entries)
    requires ParseEntries(s, acc).Parsed?
    ensures s == MembersThen(members, close, ParseEntries(s, acc).rest)
    ensures GoodMembers(members, close, ParseEntries(s, acc).rest)
    ensures MembersMean(members, entries) && ParseEntries(s, acc).value == Obj(acc + entries)
    decreases |s|, 2
  {
    var before := BlanksApart(s);
    var t := SkipTrivia(s);
    assert t == [t[0]] + t[1..];
    if t[0] == '}' {
      members, close, entries := [], before, [];
      assert acc + [] == acc;
    } else if t[0] == ',' {
      var more;
      more, close, entries := MembersApart(t[1..], acc);
      members := [Separator(before)] + more;
      assert members[1..] == more;
    } else {
      var entry, after := ParseEntry(t).value, ParseEntry(t).rest;
      var member := EntryApart(t, before);
      var more, others;
      more, close, others := MembersApart(after, acc + [entry]);
      members, entries := [member] + more, [entry] + others;
      assert members[1..] == more && entries[1..] == others;
      MoveFirst(acc, entries);
    }
  }

  /** One entry: its text before the text that is left, with the blanks that were skipped before it. */
  lemma {:induction false} EntryApart(t: string, before: Blanks) returns (member: Member)
    requires ParseEntry(t).Parsed?
    ensures member.Entry? && member.before == before
    ensures var rest := ParseEntry(t).rest;
            var value := NodeThen(member.node, AssertionsThen(member.after, rest));
            && t == KeyThen(member.key, BlanksThen(member.colon, [':'] + value))
            && GoodKey(member.key, BlanksThen(member.colon, [':'] + value)) && GoodBlanks(member.colon, [':'] + value)
            && GoodNode(member.node, AssertionsThen(member.after, rest)) && GoodAssertions(member.after, rest)
    ensures KeyMeans(member.key, ParseEntry(t).value.0) && Means(member.node, ParseEntry(t).value.1)
    decreases |t|, 1
  {
    var key := KeyApart(t);
    var afterKey := ParseKey(t).rest;
    var colon := BlanksApart(afterKey);
    var u := SkipTrivia(afterKey);
    assert u == [':'] + u[1..];
    var node := TreeApart(u[1..]);
    var assertions := AssertionsApart(ParseValue(u[1..]).rest);
    member := Entry(before, key, colon, node, assertions);
  }

  // --------------------------------------------------------------------------- documents

  /**
   The scanner reads exactly the texts of the grammar's trees, as the values they mean: quoted and
   bare keys, comments, commas, assertions, escapes and numerals alike, with any text after them.
   */
  lemma ReadsExactlyTheTrees(s: string, v: Val, rest: string)
    ensures ParseValue(s) == Parsed(v, rest)
            <==> exists node :: s == NodeThen(node, rest) && GoodNode(node, rest) && Means(node, v)
  {
    if ParseValue(s) == Parsed(v, rest) {
      var node := TreeApart(s);
    }
    if node :| s == NodeThen(node, rest) && GoodNode(node, rest) && Means(node, v) {
      TreeIsRead(node, rest, v);
    }
  }

  /** A JSON document: a value, blanks, and white space of any kind to the end. */
  ghost predicate IsDocument(src: string, v: Val, node: Node, close: Blanks, tail: string) {
    && src == NodeThen(node, BlanksThen(close, tail))
    && GoodNode(node, BlanksThen(close, tail)) && Means(node, v)
    && GoodBlanks(close, tail) && NoBlank(tail) && AllWhitespace(tail)
  }

  lemma DocumentIsRead(src: string, v: Val, node: Node, close: Blanks, tail: string)
    requires IsDocument(src, v, node, close, tail)
    ensures ParseJson(src) == Ok(v)
  {
    TreeIsRead(node, BlanksThen(close, tail), v);
    BlanksAreSkipped(close, tail);
    NoBlankStays(tail);
    TrimIsEmptyIff(tail);
  }

  lemma DocumentApart(src: string) returns (node: Node, close: Blanks, tail: string)
    requires ParseJson(src).Ok?
    ensures IsDocument(src, ParseJson(src).value, node, close, tail)
  {
    node := TreeApart(src);
    var rest := ParseValue(src).rest;
    close := BlanksApart(rest);
    tail := SkipTrivia(rest);
    TrimIsEmptyIff(tail);
  }

  /** `parse_json` accepts exactly the documents, as the values they mean. */
  lemma AcceptsExactlyTheDocuments(src: string, v: Val)
    ensures ParseJson(src) == Ok(v) <==> exists node, close, tail :: IsDocument(src, v, node, close, tail)
  {
    if ParseJson(src) == Ok(v) {
      var node, close, tail := DocumentApart(src);
    }
    if node, close, tail :| IsDocument(src, v, node, close, tail) {
      DocumentIsRead(src, v, node, close, tail);
    }
  }

  /** White space, at most one semicolon, and white space. */
  predicate IsEnd(tail: string) {
    exists i :: 0 <= i <= |tail| && AllWhitespace(tail[..i]) && AllWhitespace(AfterSemicolon(tail[i..]))
  }

  function AfterSemicolon(s: string): string {
    if s != [] && s[0] == ';' then s[1..] else s
  }

  const KEYWORD: string := ['e', 'x', 'p', 'o', 'r', 't', ' ', 'c', 'o', 'n', 's', 't']

  /**
   A module: the first `export const`, a binding without an equals sign up to the first one, the
   value, its assertions, and the end.
   */
  ghost predicate IsModule(
    src: string, v: Val, header: string, name: string, node: Node, after: Assertions, tail: string)
  {
    var body := NodeThen(node, AssertionsThen(after, tail));
    && src == header + (KEYWORD + (name + (['='] + body)))
    && (forall i | 0 <= i < |header| :: !(KEYWORD <= src[i..])) && '=' !in name
    && GoodNode(node, AssertionsThen(after, tail)) && Means(node, v)
    && GoodAssertions(after, tail) && IsEnd(tail)
  }

  lemma EndIs(tail: string)
    ensures Trim(StripSemicolon(Trim(tail))) == [] <==> IsEnd(tail)
  {
    if Trim(StripSemicolon(Trim(tail))) == [] {
      EndApartIsEnd(tail);
    }
    if i :| 0 <= i <= |tail| && AllWhitespace(tail[..i]) && AllWhitespace(AfterSemicolon(tail[i..])) {
      EndIsTrimmed(tail, i);
    }
  }

  lemma EndApartIsEnd(tail: string)
    requires Trim(StripSemicolon(Trim(tail))) == []
    ensures IsEnd(tail)
  {
    var a, b := TrimApart(tail);
    var t := Trim(tail);
    TrimIsEmptyIff(StripSemicolon(t));
    if t == [] {
      assert tail == a + b;
      assert tail[..|tail|] == tail && tail[|tail|..] == [];
    } else {
      assert t[0] == ';' && t == [';'] + t[1..];
      WhiteAfterFirst(t);
      assert t == [';'] && tail[..|a|] == a && tail[|a|..] == [';'] + b;
      assert AfterSemicolon(tail[|a|..]) == b;
    }
  }

  lemma WhiteAfterFirst(t: string)
    requires t != [] && AllWhitespace(t[1..])
    ensures forall j | 1 <= j < |t| :: IsWhitespace(t[j])
  {
    assert forall j | 1 <= j < |t| :: t[j] == t[1..][j - 1];
  }

  lemma EndIsTrimmed(tail: string, i: nat)
    requires i <= |tail| && AllWhitespace(tail[..i]) && AllWhitespace(AfterSemicolon(tail[i..]))
    ensures Trim(StripSemicolon(Trim(tail))) == []
  {
    var p, q := tail[..i], tail[i..];
    assert tail == p + q;
    TrimIsEmptyIff([]);
    if q != [] && q[0] == ';' {
      assert tail == p + ([';'] + q[1..]);
      TrimOf(p, [';'], q[1..]);
      assert [';'][1..] == [] && ";" <= [';'];
    } else {
      assert AllWhitespace(tail);
      TrimIsEmptyIff(tail);
    }
  }

  lemma KeywordIs()
    ensures KEYWORD == EXPORT && '=' !in KEYWORD && |EQUALS| == 1 && EQUALS == ['=']
  {
  }

  lemma FoundAt(s: string, needle: string, before: string, after: string)
    requires s == before + (needle + after)
    requires forall i | 0 <= i < |before| :: !(needle <= s[i..])
    ensures Find(s, needle) == Some(|before|)
  {
    assert s[|before|..] == needle + after;
    assert needle <= s[|before|..];
  }

  lemma FoundApart(s: string, needle: string)
    requires Find(s, needle).Some?
    ensures var i := Find(s, needle).value;
            s == s[..i] + (needle + s[i + |needle|..])
  {
    var i := Find(s, needle).value;
    assert s[i..] == needle + s[i + |needle|..];
  }

  lemma NoEqualsBefore(s: string, before: string, after: string)
    requires s == before + (['='] + after)
    ensures (forall i | 0 <= i < |before| :: !(EQUALS <= s[i..])) <==> '=' !in before
  {
    forall i | 0 <= i < |before|
      ensures EQUALS <= s[i..] <==> before[i] == '='
    {
      assert s[i..][0] == before[i];
    }
  }

  lemma ModuleIsRead(
    src: string, v: Val, header: string, name: string, node: Node, after: Assertions, tail: string)
    requires IsModule(src, v, header, name, node, after, tail)
    ensures ParseModuleObject(src) == Ok(v)
  {
    var body := NodeThen(node, AssertionsThen(after, tail));
    var binding := KEYWORD + (name + (['='] + body));
    KeywordIs();
    FoundAt(src, EXPORT, header, name + (['='] + body));
    assert src[|header|..] == binding;
    var before := KEYWORD + name;
    assert binding == before + (['='] + body);
    NoEqualsBefore(binding, before, body);
    FoundAt(binding, EQUALS, before, body);
    assert binding[|before| + 1..] == body;
    BodyIsRead(v, node, after, tail);
  }

  lemma BodyIsRead(v: Val, node: Node, after: Assertions, tail: string)
    requires GoodNode(node, AssertionsThen(after, tail)) && Means(node, v)
    requires GoodAssertions(after, tail) && IsEnd(tail)
    ensures ParseBound(NodeThen(node, AssertionsThen(after, tail))) == Ok(v)
  {
    TreeIsRead(node, AssertionsThen(after, tail), v);
    AssertionsAreSkipped(after, tail);
    EndIs(tail);
  }

  lemma BodyApart(body: string) returns (node: Node, after: Assertions, tail: string)
    requires ParseBound(body).Ok?
    ensures body == NodeThen(node, AssertionsThen(after, tail))
    ensures GoodNode(node, AssertionsThen(after, tail)) && Means(node, ParseBound(body).value)
    ensures GoodAssertions(after, tail) && IsEnd(tail)
  {
    node := TreeApart(body);
    after := AssertionsApart(ParseValue(body).rest);
    tail := SkipAssertions(ParseValue(body).rest);
    EndIs(tail);
  }

  lemma ModuleApart(src: string)
    returns (header: string, name: string, node: Node, after: Assertions, tail: string)
    requires ParseModuleObject(src).Ok?
    ensures IsModule(src, ParseModuleObject(src).value, header, name, node, after, tail)
  {
    KeywordIs();
    var start := Find(src, EXPORT).value;
    FoundApart(src, EXPORT);
    header := src[..start];
    name, node, after, tail := BindingApart(src[start..]);
    assert src == header + src[start..];
  }

  lemma BindingApart(binding: string) returns (name: string, node: Node, after: Assertions, tail: string)
    requires KEYWORD <= binding && ParseBinding(binding).Ok?
    ensures binding == KEYWORD + (name + (['='] + NodeThen(node, AssertionsThen(after, tail)))) && '=' !in name
    ensures GoodNode(node, AssertionsThen(after, tail)) && Means(node, ParseBinding(binding).value)
    ensures GoodAssertions(after, tail) && IsEnd(tail)
  {
    KeywordIs();
    var eq := Find(binding, EQUALS).value;
    FoundApart(binding, EQUALS);
    var body := binding[eq + 1..];
    NoEqualsBefore(binding, binding[..eq], body);
    name := NameBefore(binding, eq);
    node, after, tail := BodyApart(body);
    Associate(KEYWORD, name, ['='] + body);
  }

  lemma Associate(a: string, b: string, c: string)
    ensures (a + b) + c == a + (b + c)
  {
  }

  /** The first equals sign comes after the keyword. */
  lemma NameBefore(binding: string, eq: nat) returns (name: string)
    requires KEYWORD <= binding && eq < |binding| && binding[eq] == '=' && '=' !in binding[..eq]
    ensures binding[..eq] == KEYWORD + name && '=' !in name
  {
    assert forall i | 0 <= i < |KEYWORD| :: binding[i] == KEYWORD[i];
    assert '=' !in KEYWORD;
    assert eq >= |KEYWORD|;
    name := binding[|KEYWORD|..eq];
    assert forall c | c in name :: c in binding[..eq];
  }

  /** `parse_module_object` accepts exactly the modules, as the values their bindings mean. */
  lemma AcceptsExactlyTheModules(src: string, v: Val)
    ensures ParseModuleObject(src) == Ok(v)
            <==> exists header, name, node, after, tail :: IsModule(src, v, header, name, node, after, tail)
  {
    if ParseModuleObject(src) == Ok(v) {
      var header, name, node, after, tail := ModuleApart(src);
    }
    if header, name, node, after, tail :| IsModule(src, v, header, name, node, after, tail) {
      ModuleIsRead(src, v, header, name, node, after, tail);
    }
  }
}
