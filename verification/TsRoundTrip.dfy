/** Printing and scanning are inverse, and scanning accepted text is a fixpoint. */
module TsRoundTrip {
  import opened Wrappers
  import opened TsData
  import opened TsParser
  import opened Text

  /** A text that the numeral scanner takes whole. */
  predicate IsNumeral(text: string) {
    StartsNumeral(text) && NumeralLength(text) == |text|
  }

  /** Every numeral in the value is a text the scanner takes whole; nothing else is asked. */
  predicate Printable(v: Val)
    decreases v
  {
    match v
    case Num(text) => IsNumeral(text)
    case Arr(items) => forall i | 0 <= i < |items| :: Printable(items[i])
    case Obj(entries) =>
      forall i | 0 <= i < |entries| :: assert entries[i].1 < entries[i]; Printable(entries[i].1)
    case _ => true
  }

  predicate NumeralChar(c: char) {
    IsDigit(c) || c == '.' || c == 'e' || c == 'E' || c == '+' || c == '-'
  }

  /** What follows a value does not go on with a numeral. */
  predicate EndsToken(rest: string) {
    rest == [] || !NumeralChar(rest[0])
  }

  predicate StartsToken(s: string) {
    s != [] && !IsAsciiWhitespace(s[0]) && s[0] != '/'
  }

  // ---------------------------------------------------------------------------- trivia

  lemma Reassociate(a: string, b: string, c: string)
    ensures (a + b) + c == a + (b + c)
  {
  }

  lemma MoveFirst<T>(acc: seq<T>, s: seq<T>)
    requires s != []
    ensures acc + [s[0]] + s[1..] == acc + s
  {
  }

  lemma TokenIsNoTrivia(s: string)
    requires StartsToken(s)
    ensures SkipTrivia(s) == s
  {
  }

  lemma {:induction false} PadIsTrivia(depth: nat, s: string)
    ensures SkipTrivia(Pad(depth) + s) == SkipTrivia(s)
  {
    if depth == 0 {
      assert Pad(0) + s == s;
    } else {
      PadIsTrivia(depth - 1, s);
      Reassociate([TAB], Pad(depth - 1), s);
      assert ([TAB] + (Pad(depth - 1) + s))[1..] == Pad(depth - 1) + s;
    }
  }

  lemma NewlineIsTrivia(s: string)
    ensures SkipTrivia(['\n'] + s) == SkipTrivia(s)
  {
    assert (['\n'] + s)[1..] == s;
  }

  // --------------------------------------------------------------------------- strings

  lemma HexOfControl(c: char)
    requires c as int < 0x20
    ensures HexValue("00" + [HexChar(c as int / 16), HexChar(c as int % 16)]) == Some(c as nat)
  {
    var high, low := c as int / 16, c as int % 16;
    var s := "00" + [HexChar(high), HexChar(low)];
    assert HexDigit(HexChar(high)) == Some(high) && HexDigit(HexChar(low)) == Some(low);
    assert s[1..][1..][1..] == [HexChar(low)] && s[1..][1..] == [HexChar(high), HexChar(low)];
    assert HexDigits([HexChar(low)], high) == Some(16 * high + low);
    assert HexDigits([HexChar(high), HexChar(low)], 0) == HexDigits([HexChar(low)], high);
    assert HexDigits(s[1..], 0) == HexDigits(s[1..][1..], 0);
    assert HexDigits(s, 0) == HexDigits(s[1..], 0);
  }

  /** One written character is read back, whatever it is and whatever follows. */
  lemma CharRoundTrip(c: char, rest: string, acc: string)
    ensures ParseString(Escaped(c) + rest, acc) == ParseString(rest, acc + [c])
  {
    var s := Escaped(c) + rest;
    if c == '"' || c == '\\' || c == '\n' || c == '\r' || c == TAB || c == BACKSPACE || c == FORM_FEED {
      EscapeRoundTrip(Escaped(c)[1], c, rest, acc);
    } else if c as int < 0x20 {
      var hex := "00" + [HexChar(c as int / 16), HexChar(c as int % 16)];
      assert s == ['\\', 'u'] + hex + rest;
      UnicodeEscapeRoundTrip(hex, c, rest, acc);
    } else {
      assert s[1..] == rest;
    }
  }

  lemma EscapeRoundTrip(e: char, c: char, rest: string, acc: string)
    requires Unescaped(e) == Some(c)
    ensures ParseString(['\\', e] + rest, acc) == ParseString(rest, acc + [c])
  {
    var s := ['\\', e] + rest;
    assert s[1..] == [e] + rest;
    assert ([e] + rest)[1..] == rest;
  }

  lemma UnicodeEscapeRoundTrip(hex: string, c: char, rest: string, acc: string)
    requires |hex| == 4 && c as int < 0x20 && hex == "00" + [HexChar(c as int / 16), HexChar(c as int % 16)]
    ensures ParseString(['\\', 'u'] + hex + rest, acc) == ParseString(rest, acc + [c])
  {
    var s := ['\\', 'u'] + hex + rest;
    assert s[1..] == ['u'] + (hex + rest);
    assert s[1..][1..5] == hex && s[1..][5..] == rest;
    HexOfControl(c);
    assert ParseEscape(s[1..]) == Parsed(c, rest);
  }

  lemma QuoteEnds(rest: string, acc: string)
    ensures ParseString(['"'] + rest, acc) == Parsed(acc, rest)
  {
    assert (['"'] + rest)[1..] == rest;
  }

  lemma FirstCharRoundTrip(text: string, end: string, acc: string)
    requires text != []
    ensures ParseString(EscapedAll(text) + end, acc) == ParseString(EscapedAll(text[1..]) + end, acc + [text[0]])
  {
    Reassociate(Escaped(text[0]), EscapedAll(text[1..]), end);
    CharRoundTrip(text[0], EscapedAll(text[1..]) + end, acc);
  }

  lemma {:induction false} StringRoundTrip(text: string, rest: string, acc: string)
    ensures ParseString(EscapedAll(text) + (['"'] + rest), acc) == Parsed(acc + text, rest)
  {
    var end := ['"'] + rest;
    if text == [] {
      assert [] + end == end && acc + text == acc;
      QuoteEnds(rest, acc);
    } else {
      FirstCharRoundTrip(text, end, acc);
      StringRoundTrip(text[1..], rest, acc + [text[0]]);
      MoveFirst(acc, text);
    }
  }

  lemma QuotedRoundTrip(text: string, rest: string)
    ensures (Quoted(text) + rest)[0] == '"'
    ensures ParseString((Quoted(text) + rest)[1..], []) == Parsed(text, rest)
  {
    assert (Quoted(text) + rest)[1..] == EscapedAll(text) + (['"'] + rest);
    StringRoundTrip(text, rest, []);
    assert [] + text == text;
  }

  // --------------------------------------------------------------------------- numerals

  lemma {:induction false} NumeralTailStops(prev: char, s: string, rest: string)
    requires NumeralTail(prev, s) == |s| && EndsToken(rest)
    ensures NumeralTail(prev, s + rest) == |s|
    decreases |s|
  {
    if s == [] {
      assert s + rest == rest;
    } else {
      NumeralTailStops(s[0], s[1..], rest);
      assert (s + rest)[1..] == s[1..] + rest;
    }
  }

  lemma {:induction false} NumeralTailTakesAll(prev: char, s: string)
    ensures NumeralTail(prev, s[..NumeralTail(prev, s)]) == NumeralTail(prev, s)
    decreases |s|
  {
    var n := NumeralTail(prev, s);
    if n > 0 {
      NumeralTailTakesAll(s[0], s[1..]);
      assert s[..n][1..] == s[1..][..n - 1];
    }
  }

  /** What the scanner reads as a numeral it would read again as one. */
  lemma ReadNumeralIsNumeral(s: string)
    requires StartsNumeral(s)
    ensures IsNumeral(s[..NumeralLength(s)])
  {
    NumeralTailTakesAll(s[0], s[1..]);
    assert s[..NumeralLength(s)][1..] == s[1..][..NumeralLength(s) - 1];
  }

  lemma NumeralStops(text: string, rest: string)
    requires IsNumeral(text) && EndsToken(rest)
    ensures StartsNumeral(text + rest) && NumeralLength(text + rest) == |text|
  {
    NumeralTailStops(text[0], text[1..], rest);
    assert (text + rest)[1..] == text[1..] + rest;
  }

  lemma NumeralRoundTrip(text: string, rest: string)
    requires IsNumeral(text) && EndsToken(rest)
    ensures ParseValue(text + rest) == Parsed(Num(text), rest)
  {
    NumeralStops(text, rest);
    TokenIsNoTrivia(text + rest);
    assert (text + rest)[..|text|] == text && (text + rest)[|text|..] == rest;
  }

  // ----------------------------------------------------------------------------- values

  /** A printed value starts with its own character, which no separator or bracket is. */
  lemma JsonStarts(v: Val, depth: nat)
    requires Printable(v)
    ensures StartsToken(Json(v, depth)) && Json(v, depth)[0] !in {',', ']', '}', ':'}
  {
  }

  lemma PrintedIsNoTrivia(v: Val, depth: nat, rest: string)
    requires Printable(v)
    ensures SkipTrivia(Json(v, depth) + rest) == Json(v, depth) + rest
    ensures Json(v, depth) != [] && (Json(v, depth) + rest)[0] !in {',', ']', '}'}
  {
    JsonStarts(v, depth);
    TokenIsNoTrivia(Json(v, depth) + rest);
  }

  /** A printed value is read back, at any depth and before any text that does not extend it. */
  lemma {:induction false} ValueRoundTrip(v: Val, depth: nat, rest: string)
    requires Printable(v) && EndsToken(rest)
    ensures ParseValue(Json(v, depth) + rest) == Parsed(v, rest)
    decreases v, 0
  {
    var s := Json(v, depth) + rest;
    JsonStarts(v, depth);
    TokenIsNoTrivia(s);
    match v
    case Str(text) => QuotedRoundTrip(text, rest);
    case Num(text) => NumeralRoundTrip(text, rest);
    case Bool(b) =>
      assert s[if b then 4 else 5..] == rest;
    case Null =>
      assert s[4..] == rest;
    case Arr(items) => ArrayRoundTrip(items, depth, rest);
    case Obj(entries) => ObjectRoundTrip(entries, depth, rest);
  }

  lemma {:induction false} ArrayRoundTrip(items: seq<Val>, depth: nat, rest: string)
    requires Printable(Arr(items))
    ensures ParseItems((Json(Arr(items), depth) + rest)[1..], []) == Parsed(Arr(items), rest)
    decreases items, 3
  {
    var s := Json(Arr(items), depth) + rest;
    if items == [] {
      assert s[1..] == [']'] + rest;
      ItemsClose(s[1..], rest, []);
    } else {
      var lines := ItemLines(items, depth) + (Pad(depth) + ([']'] + rest));
      assert s[1..] == ['\n'] + lines by {
        Regroup(['[', '\n'], ItemLines(items, depth), Pad(depth), [']'], rest);
      }
      NewlineIsTrivia(lines);
      SameItems(s[1..], lines, []);
      ItemsRoundTrip(items, depth, rest, []);
      assert [] + items == items;
    }
  }

  lemma {:induction false} ObjectRoundTrip(entries: Entries, depth: nat, rest: string)
    requires Printable(Obj(entries))
    ensures ParseEntries((Json(Obj(entries), depth) + rest)[1..], []) == Parsed(Obj(entries), rest)
    decreases entries, 3
  {
    var s := Json(Obj(entries), depth) + rest;
    if entries == [] {
      assert s[1..] == ['}'] + rest;
      EntriesClose(s[1..], rest, []);
    } else {
      var lines := EntryLines(entries, depth) + (Pad(depth) + (['}'] + rest));
      assert s[1..] == ['\n'] + lines by {
        Regroup(['{', '\n'], EntryLines(entries, depth), Pad(depth), ['}'], rest);
      }
      NewlineIsTrivia(lines);
      SameEntries(s[1..], lines, []);
      EntriesRoundTrip(entries, depth, rest, []);
      assert [] + entries == entries;
    }
  }

  lemma Regroup(a: string, b: string, c: string, d: string, rest: string)
    ensures (a + (b + (c + d))) + rest == a + (b + (c + (d + rest)))
  {
  }

  // One step of each production, so that the proofs below need not unfold them.

  lemma SameItems(s: string, t: string, acc: seq<Val>)
    requires SkipTrivia(s) == SkipTrivia(t)
    ensures ParseItems(s, acc) == ParseItems(t, acc)
  {
  }

  lemma ItemsClose(s: string, rest: string, acc: seq<Val>)
    requires SkipTrivia(s) == [']'] + rest
    ensures ParseItems(s, acc) == Parsed(Arr(acc), rest)
  {
    assert ([']'] + rest)[1..] == rest;
  }

  lemma ItemsComma(s: string, rest: string, acc: seq<Val>)
    requires s == [','] + rest
    ensures ParseItems(s, acc) == ParseItems(rest, acc)
  {
    TokenIsNoTrivia(s);
    assert s[1..] == rest;
  }

  lemma ItemsValue(s: string, t: string, item: Val, after: string, acc: seq<Val>)
    requires SkipTrivia(s) == t && t != [] && t[0] !in {']', ','} && ParseValue(t) == Parsed(item, after)
    ensures ParseItems(s, acc) == ParseItems(SkipAssertions(after), acc + [item])
  {
  }

  lemma SameEntries(s: string, t: string, acc: Entries)
    requires SkipTrivia(s) == SkipTrivia(t)
    ensures ParseEntries(s, acc) == ParseEntries(t, acc)
  {
  }

  lemma EntriesClose(s: string, rest: string, acc: Entries)
    requires SkipTrivia(s) == ['}'] + rest
    ensures ParseEntries(s, acc) == Parsed(Obj(acc), rest)
  {
    assert (['}'] + rest)[1..] == rest;
  }

  lemma EntriesComma(s: string, rest: string, acc: Entries)
    requires s == [','] + rest
    ensures ParseEntries(s, acc) == ParseEntries(rest, acc)
  {
    TokenIsNoTrivia(s);
    assert s[1..] == rest;
  }

  lemma EntriesEntry(s: string, t: string, entry: (string, Val), rest: string, acc: Entries)
    requires SkipTrivia(s) == t && t != [] && t[0] !in {'}', ','} && ParseEntry(t) == Parsed(entry, rest)
    ensures ParseEntries(s, acc) == ParseEntries(rest, acc + [entry])
  {
  }

  /** What stands between a printed value and the next line is skipped. */
  lemma LineEndIsSkipped(more: bool, next: string)
    ensures more ==> SkipAssertions(Comma(more) + (['\n'] + next)) == [','] + (['\n'] + next)
    ensures !more && SkipTrivia(next) != [] && SkipTrivia(next)[0] in {']', '}'}
            ==> SkipAssertions(Comma(more) + (['\n'] + next)) == SkipTrivia(next)
  {
    if more {
      TokenIsNoTrivia([','] + (['\n'] + next));
    } else {
      assert [] + (['\n'] + next) == ['\n'] + next;
      NewlineIsTrivia(next);
    }
  }

  lemma CloseIsNext(depth: nat, close: char, rest: string)
    requires close in {']', '}'}
    ensures SkipTrivia(Pad(depth) + ([close] + rest)) == [close] + rest
  {
    PadIsTrivia(depth, [close] + rest);
    TokenIsNoTrivia([close] + rest);
  }

  /** One line of an array. */
  lemma {:induction false} ItemLineRoundTrip(item: Val, more: bool, depth: nat, next: string, acc: seq<Val>)
    requires Printable(item)
    ensures ParseItems(ItemLine(item, depth, more) + next, acc)
            == ParseItems(SkipAssertions(Comma(more) + (['\n'] + next)), acc + [item])
    decreases item, 1
  {
    var after := Comma(more) + (['\n'] + next);
    var text := Json(item, depth + 1) + after;
    ItemLineStarts(item, more, depth, next);
    ValueRoundTrip(item, depth + 1, after);
    ItemsValue(ItemLine(item, depth, more) + next, text, item, after, acc);
  }

  /** Past its indentation a line starts with the item. */
  lemma ItemLineStarts(item: Val, more: bool, depth: nat, next: string)
    requires Printable(item)
    ensures var text := Json(item, depth + 1) + (Comma(more) + (['\n'] + next));
            SkipTrivia(ItemLine(item, depth, more) + next) == text && text != [] && text[0] !in {',', ']', '}'}
  {
    var after := Comma(more) + (['\n'] + next);
    Regroup(Pad(depth + 1), Json(item, depth + 1), Comma(more), ['\n'], next);
    PadIsTrivia(depth + 1, Json(item, depth + 1) + after);
    PrintedIsNoTrivia(item, depth + 1, after);
  }

  /** One line of an object. */
  lemma {:induction false} EntryLineRoundTrip(
    key: string, value: Val, more: bool, depth: nat, next: string, acc: Entries)
    requires Printable(value)
    ensures ParseEntries(EntryLine(key, value, depth, more) + next, acc)
            == ParseEntries(SkipAssertions(Comma(more) + (['\n'] + next)), acc + [(key, value)])
    decreases value, 3
  {
    var after := Comma(more) + (['\n'] + next);
    var text := KeyText(key) + (Json(value, depth + 1) + after);
    EntryLineStarts(key, value, more, depth, next);
    EntryRoundTrip(key, value, depth, after);
    EntriesEntry(EntryLine(key, value, depth, more) + next, text, (key, value), SkipAssertions(after), acc);
  }

  /** Past its indentation a line starts with the key. */
  lemma EntryLineStarts(key: string, value: Val, more: bool, depth: nat, next: string)
    ensures var text := KeyText(key) + (Json(value, depth + 1) + (Comma(more) + (['\n'] + next)));
            SkipTrivia(EntryLine(key, value, depth, more) + next) == text && text != [] && text[0] == '"'
  {
    var text := KeyText(key) + (Json(value, depth + 1) + (Comma(more) + (['\n'] + next)));
    Reassociate(Pad(depth + 1), KeyText(key) + (Json(value, depth + 1) + (Comma(more) + ['\n'])), next);
    Regroup(KeyText(key), Json(value, depth + 1), Comma(more), ['\n'], next);
    PadIsTrivia(depth + 1, text);
    assert text[0] == '"';
    TokenIsNoTrivia(text);
  }

  lemma {:induction false} ItemsRoundTrip(items: seq<Val>, depth: nat, rest: string, acc: seq<Val>)
    requires forall i | 0 <= i < |items| :: Printable(items[i])
    ensures ParseItems(ItemLines(items, depth) + (Pad(depth) + ([']'] + rest)), acc) == Parsed(Arr(acc + items), rest)
    decreases items, 1
  {
    var close := Pad(depth) + ([']'] + rest);
    CloseIsNext(depth, ']', rest);
    if items == [] {
      assert [] + close == close && acc + items == acc;
      ItemsClose(close, rest, acc);
    } else {
      var item, more := items[0], |items| > 1;
      var next := ItemLines(items[1..], depth) + close;
      Reassociate(ItemLine(item, depth, more), ItemLines(items[1..], depth), close);
      assert !more ==> next == close;
      ItemLineThenNext(item, more, depth, next, rest, acc);
      ItemsRoundTrip(items[1..], depth, rest, acc + [item]);
      MoveFirst(acc, items);
    }
  }

  /** One line, and the reading goes on at the next. */
  lemma {:induction false} ItemLineThenNext(
    item: Val, more: bool, depth: nat, next: string, rest: string, acc: seq<Val>)
    requires Printable(item) && (!more ==> SkipTrivia(next) == [']'] + rest)
    ensures ParseItems(ItemLine(item, depth, more) + next, acc) == ParseItems(next, acc + [item])
    decreases item, 4
  {
    ItemLineRoundTrip(item, more, depth, next, acc);
    ItemsLineEnd(more, next, rest, acc + [item]);
  }

  /** After a line, and the comma that ends all lines but the last, the next one is read. */
  lemma ItemsLineEnd(more: bool, next: string, rest: string, acc: seq<Val>)
    requires !more ==> SkipTrivia(next) == [']'] + rest
    ensures ParseItems(SkipAssertions(Comma(more) + (['\n'] + next)), acc) == ParseItems(next, acc)
  {
    LineEndIsSkipped(more, next);
    NewlineIsTrivia(next);
    if more {
      ItemsComma([','] + (['\n'] + next), ['\n'] + next, acc);
      SameItems(['\n'] + next, next, acc);
    } else {
      TokenIsNoTrivia([']'] + rest);
      SameItems([']'] + rest, next, acc);
    }
  }

  lemma {:induction false} EntriesRoundTrip(entries: Entries, depth: nat, rest: string, acc: Entries)
    requires forall i | 0 <= i < |entries| :: Printable(entries[i].1)
    ensures ParseEntries(EntryLines(entries, depth) + (Pad(depth) + (['}'] + rest)), acc) == Parsed(Obj(acc + entries), rest)
    decreases entries, 1
  {
    var close := Pad(depth) + (['}'] + rest);
    CloseIsNext(depth, '}', rest);
    if entries == [] {
      assert [] + close == close && acc + entries == acc;
      EntriesClose(close, rest, acc);
    } else {
      var entry, more := entries[0], |entries| > 1;
      var next := EntryLines(entries[1..], depth) + close;
      Reassociate(EntryLine(entry.0, entry.1, depth, more), EntryLines(entries[1..], depth), close);
      assert !more ==> next == close;
      assert entry.1 < entry;
      EntryLineThenNext(entry.0, entry.1, more, depth, next, rest, acc);
      EntriesRoundTrip(entries[1..], depth, rest, acc + [entry]);
      MoveFirst(acc, entries);
    }
  }

  /** One line, and the reading goes on at the next. */
  lemma {:induction false} EntryLineThenNext(
    key: string, value: Val, more: bool, depth: nat, next: string, rest: string, acc: Entries)
    requires Printable(value) && (!more ==> SkipTrivia(next) == ['}'] + rest)
    ensures ParseEntries(EntryLine(key, value, depth, more) + next, acc) == ParseEntries(next, acc + [(key, value)])
    decreases value, 4
  {
    EntryLineRoundTrip(key, value, more, depth, next, acc);
    EntriesLineEnd(more, next, rest, acc + [(key, value)]);
  }

  /** After a line, and the comma that ends all lines but the last, the next one is read. */
  lemma EntriesLineEnd(more: bool, next: string, rest: string, acc: Entries)
    requires !more ==> SkipTrivia(next) == ['}'] + rest
    ensures ParseEntries(SkipAssertions(Comma(more) + (['\n'] + next)), acc) == ParseEntries(next, acc)
  {
    LineEndIsSkipped(more, next);
    NewlineIsTrivia(next);
    if more {
      EntriesComma([','] + (['\n'] + next), ['\n'] + next, acc);
      SameEntries(['\n'] + next, next, acc);
    } else {
      TokenIsNoTrivia(['}'] + rest);
      SameEntries(['}'] + rest, next, acc);
    }
  }

  lemma {:induction false} EntryRoundTrip(key: string, value: Val, depth: nat, after: string)
    requires Printable(value) && EndsToken(after)
    ensures ParseEntry(KeyText(key) + (Json(value, depth + 1) + after)) == Parsed((key, value), SkipAssertions(after))
    decreases value, 2
  {
    var body := Json(value, depth + 1) + after;
    Reassociate(Quoted(key), [':', ' '], body);
    QuotedRoundTrip(key, [':', ' '] + body);
    MemberRoundTrip(key, value, depth, after);
  }

  lemma {:induction false} MemberRoundTrip(key: string, value: Val, depth: nat, after: string)
    requires Printable(value) && EndsToken(after)
    ensures ParseMember(key, [':', ' '] + (Json(value, depth + 1) + after)) == Parsed(value, SkipAssertions(after))
    decreases value, 1
  {
    ValueRoundTrip(value, depth + 1, after);
    MemberAfterColon(key, Json(value, depth + 1) + after, value, after);
  }

  lemma MemberAfterColon(key: string, body: string, value: Val, after: string)
    requires ParseValue(body) == Parsed(value, after)
    ensures ParseMember(key, [':', ' '] + body) == Parsed(value, SkipAssertions(after))
  {
    var u := [':', ' '] + body;
    TokenIsNoTrivia(u);
    assert u[1..] == [' '] + body;
    SpaceThenValue(body);
  }

  lemma SpaceThenValue(s: string)
    ensures ParseValue([' '] + s) == ParseValue(s)
  {
    assert ([' '] + s)[1..] == s;
    assert SkipTrivia([' '] + s) == SkipTrivia(s);
  }

  /** The round trip: printing and parsing a document gives the same value back. */
  lemma JsonRoundTrip(v: Val)
    requires Printable(v)
    ensures ParseJson(Json(v, 0)) == Ok(v)
  {
    ValueRoundTrip(v, 0, []);
    assert Json(v, 0) + [] == Json(v, 0);
  }

  /** Printing loses nothing: two values with the same text are the same. */
  lemma PrintingIsInjective(v: Val, w: Val)
    requires Printable(v) && Printable(w) && Json(v, 0) == Json(w, 0)
    ensures v == w
  {
    JsonRoundTrip(v);
    JsonRoundTrip(w);
  }

  // ------------------------------------------------------------------------ the fixpoint

  lemma {:induction false} ReadValueIsPrintable(s: string)
    ensures ParseValue(s).Parsed? ==> Printable(ParseValue(s).value)
    decreases |s|, 1
  {
    var t := SkipTrivia(s);
    if t == [] {
    } else if t[0] == '{' {
      ReadEntriesArePrintable(t[1..], []);
    } else if t[0] == '[' {
      ReadItemsArePrintable(t[1..], []);
    } else if t[0] != '"' && StartsNumeral(t) {
      ReadNumeralIsNumeral(t);
    }
  }

  lemma {:induction false} ReadItemsArePrintable(s: string, acc: seq<Val>)
    requires Printable(Arr(acc))
    ensures ParseItems(s, acc).Parsed? ==> Printable(ParseItems(s, acc).value)
    decreases |s|, 2
  {
    var t := SkipTrivia(s);
    if t == [] || t[0] == ']' {
    } else if t[0] == ',' {
      ReadItemsArePrintable(t[1..], acc);
    } else {
      ReadValueIsPrintable(t);
      match ParseValue(t)
      case Parsed(item, rest) => ReadItemsArePrintable(SkipAssertions(rest), acc + [item]);
      case Failed(_) =>
    }
  }

  lemma {:induction false} ReadEntriesArePrintable(s: string, acc: Entries)
    requires Printable(Obj(acc))
    ensures ParseEntries(s, acc).Parsed? ==> Printable(ParseEntries(s, acc).value)
    decreases |s|, 2
  {
    var t := SkipTrivia(s);
    if t == [] || t[0] == '}' {
    } else if t[0] == ',' {
      ReadEntriesArePrintable(t[1..], acc);
    } else {
      ReadEntryIsPrintable(t);
      match ParseEntry(t)
      case Parsed(entry, rest) => ReadEntriesArePrintable(rest, acc + [entry]);
      case Failed(_) =>
    }
  }

  lemma {:induction false} ReadEntryIsPrintable(s: string)
    ensures ParseEntry(s).Parsed? ==> Printable(ParseEntry(s).value.1)
    decreases |s|, 0
  {
    match ParseKey(s)
    case Parsed(key, afterKey) =>
      var u := SkipTrivia(afterKey);
      if u != [] && u[0] == ':' {
        ReadValueIsPrintable(u[1..]);
      }
    case Failed(_) =>
  }

  /** Every accepted text holds a printable value, which prints to a text that parses to it. */
  lemma AcceptedTextIsFixpoint(src: string)
    requires ParseJson(src).Ok?
    ensures Printable(ParseJson(src).value)
    ensures ParseJson(Json(ParseJson(src).value, 0)) == ParseJson(src)
  {
    ReadValueIsPrintable(src);
    JsonRoundTrip(ParseJson(src).value);
  }

  // ------------------------------------------------------------------------- the wrapper

  lemma FirstOccurrence(s: string, needle: string, i: nat)
    requires i <= |s| && needle <= s[i..] && forall j | 0 <= j < i :: !(needle <= s[j..])
    ensures Find(s, needle) == Some(i)
  {
    var found := Find(s, needle);
    assert found.Some?;
  }

  lemma NotEarlier(s: string, needle: string, more: string, i: nat)
    requires i + |needle| <= |s| && !(needle <= s[i..])
    ensures !(needle <= (s + more)[i..])
  {
    assert (s + more)[i..] == s[i..] + more;
    assert s[i..][..|needle|] == (s[i..] + more)[..|needle|];
  }

  lemma FindInLonger(head: string, needle: string, more: string)
    requires Find(head + needle, needle) == Some(|head|)
    ensures Find((head + needle) + more, needle) == Some(|head|)
  {
    var longer := (head + needle) + more;
    assert longer[|head|..][..|needle|] == needle;
    forall i | 0 <= i < |head|
      ensures !(needle <= longer[i..])
    {
      NotEarlier(head + needle, needle, more, i);
    }
    FirstOccurrence(longer, needle, |head|);
  }

  lemma FirstEquals(before: string, after: string)
    requires '=' !in before
    ensures Find(before + (['='] + after), EQUALS) == Some(|before|)
  {
    var s := before + (['='] + after);
    assert EQUALS <= s[|before|..];
    forall i | 0 <= i < |before|
      ensures !(EQUALS <= s[i..])
    {
      assert s[i..][0] == before[i];
    }
    FirstOccurrence(s, EQUALS, |before|);
  }

  lemma {:induction false} TrimTail(s: string, tail: string)
    requires s != [] && !IsWhitespace(s[|s| - 1]) && AllWhitespace(tail)
    ensures TrimEnd(s + tail) == s
  {
    if tail == [] {
      assert s + tail == s;
    } else {
      TrimTail(s, tail[..|tail| - 1]);
      assert (s + tail)[..|s + tail| - 1] == s + tail[..|tail| - 1];
    }
  }

  lemma ModuleTailIsEmpty(tail: string)
    requires AllWhitespace(tail)
    ensures Trim(StripSemicolon(Trim(SkipAssertions(" as const;" + tail)))) == []
  {
    var s := "as const;" + tail;
    assert " as const;" + tail == [' '] + s;
    assert ([' '] + s)[1..] == s && s[8..] == ";" + tail;
    TokenIsNoTrivia(s);
    TokenIsNoTrivia(";" + tail);
    assert SkipAssertions(";" + tail) == ";" + tail;
    assert SkipAssertions(" as const;" + tail) == ";" + tail;
    TrimTail(";", tail);
    assert Trim(";" + tail) == ";";
    assert StripSemicolon(";") == [];
  }

  /** ` <json> as const;`, and what follows it. */
  function ModuleBody(v: Val, tail: string): string {
    [' '] + (Json(v, 0) + (" as const;" + tail))
  }

  /** `export const <name> = <json> as const;`, with a text before it and one after it. */
  function ModuleText(header: string, name: string, v: Val, tail: string): string {
    (header + EXPORT) + (([' '] + name + [' ']) + (['='] + ModuleBody(v, tail)))
  }

  /**
   The module parser agrees: a module whose one binding holds a printed value gives that value,
   whatever precedes the binding and whatever white space follows it.
   */
  lemma ModuleRoundTrip(header: string, name: string, v: Val, tail: string)
    requires Printable(v) && '=' !in name && AllWhitespace(tail)
    requires Find(header + EXPORT, EXPORT) == Some(|header|)
    ensures ParseModuleObject(ModuleText(header, name, v, tail)) == Ok(v)
  {
    var named, bound := [' '] + name + [' '], ['='] + ModuleBody(v, tail);
    FindInLonger(header, EXPORT, named + bound);
    AfterHeader(header, EXPORT, named, bound);
    NoEquals(name);
    BindingRoundTrip(EXPORT + named, v, tail);
  }

  lemma NoEquals(name: string)
    requires '=' !in name
    ensures '=' !in EXPORT + ([' '] + name + [' '])
  {
    assert '=' !in EXPORT;
  }

  lemma AfterHeader(header: string, keyword: string, named: string, bound: string)
    ensures ((header + keyword) + (named + bound))[|header|..] == (keyword + named) + bound
  {
  }

  lemma BindingRoundTrip(before: string, v: Val, tail: string)
    requires Printable(v) && '=' !in before && AllWhitespace(tail)
    ensures ParseBinding(before + (['='] + ModuleBody(v, tail))) == Ok(v)
  {
    var body := ModuleBody(v, tail);
    FirstEquals(before, body);
    assert (before + (['='] + body))[|before| + 1..] == body;
    BoundRoundTrip(v, tail);
  }

  lemma BoundRoundTrip(v: Val, tail: string)
    requires Printable(v) && AllWhitespace(tail)
    ensures ParseBound(ModuleBody(v, tail)) == Ok(v)
  {
    var end := " as const;" + tail;
    SpaceThenValue(Json(v, 0) + end);
    ValueRoundTrip(v, 0, end);
    ModuleTailIsEmpty(tail);
  }
}
