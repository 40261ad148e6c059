/** The printed form, character by character: tabs, line ends, commas and escapes. */
module TsLayout {
  import opened Wrappers
  import opened TsData
  import TsGrammar

  function Tabs(n: nat): string {
    seq(n, _ => '\t')
  }

  /** Lines with a comma and a line end between them. */
  function Separated(lines: seq<string>): string {
    if lines == [] then []
    else if |lines| == 1 then lines[0]
    else lines[0] + ([',', '\n'] + Separated(lines[1..]))
  }

  lemma {:induction false} PadIsTabs(depth: nat)
    ensures Pad(depth) == Tabs(depth)
  {
    if depth > 0 {
      PadIsTabs(depth - 1);
    }
  }

  /** Every character stands for itself but quotes, backslashes and controls. */
  lemma EscapedIs(c: char)
    ensures Escaped(c) == [c] <==> c as int >= 0x20 && c != '"' && c != '\\'
    ensures Escaped('"') == ['\\', '"'] && Escaped('\\') == ['\\', '\\']
    ensures c as int == 0x0A ==> Escaped(c) == ['\\', 'n']
    ensures c as int == 0x0D ==> Escaped(c) == ['\\', 'r']
    ensures c as int == 0x09 ==> Escaped(c) == ['\\', 't']
    ensures c as int == 0x08 ==> Escaped(c) == ['\\', 'b']
    ensures c as int == 0x0C ==> Escaped(c) == ['\\', 'f']
    ensures c as int < 0x20 && c as int !in {0x08, 0x09, 0x0A, 0x0C, 0x0D} ==> IsUnicodeEscape(Escaped(c), c)
  {
    var n := c as int;
    if n < 0x20 && n !in {0x08, 0x09, 0x0A, 0x0C, 0x0D} {
      var hex := [HexChar(n / 16), HexChar(n % 16)];
      HexCharIs(n / 16);
      HexCharIs(n % 16);
      assert Escaped(c) == ['\\', 'u', '0', '0'] + hex;
      assert hex[..1] == [hex[0]] && hex[..1][..0] == [];
      assert TsGrammar.HexNumber(hex[..1]) == n / 16;
    }
  }

  /** A backslash, `u00`, and two digits in lower case that count the character. */
  predicate IsUnicodeEscape(text: string, c: char) {
    && |text| == 6 && text[..4] == ['\\', 'u', '0', '0']
    && TsGrammar.AllDigits(text[4..]) && TsGrammar.HexNumber(text[4..]) == c as int
    && forall i | 4 <= i < 6 :: !('A' <= text[i] <= 'F')
  }

  lemma HexCharIs(d: nat)
    requires d < 16
    ensures TsGrammar.DigitOf(HexChar(d)) == Some(d) && !('A' <= HexChar(d) <= 'F')
  {
  }

  /** A text is escaped character by character, between quotes. */
  lemma QuotedIs(c: char, a: string, b: string)
    ensures Quoted(a) == ['"'] + EscapedAll(a) + ['"']
    ensures EscapedAll([]) == [] && EscapedAll([c]) == Escaped(c)
    ensures EscapedAll(a + b) == EscapedAll(a) + EscapedAll(b)
  {
    assert [c][1..] == [] && Escaped(c) + [] == Escaped(c);
    EscapedOfConcatenation(a, b);
  }

  lemma EscapedFirst(c: char, s: string)
    ensures EscapedAll([c] + s) == Escaped(c) + EscapedAll(s)
  {
    assert ([c] + s)[1..] == s;
  }

  lemma {:induction false} EscapedOfConcatenation(a: string, b: string)
    ensures EscapedAll(a + b) == EscapedAll(a) + EscapedAll(b)
  {
    if a == [] {
      assert a + b == b;
    } else {
      var rest := a[1..];
      EscapedOfConcatenation(rest, b);
      assert a == [a[0]] + rest;
      Reassociate([a[0]], rest, b);
      EscapedFirst(a[0], rest + b);
      EscapedFirst(a[0], rest);
      Reassociate(Escaped(a[0]), EscapedAll(rest), EscapedAll(b));
    }
  }

  // ------------------------------------------------------------------- arrays and objects

  function ItemTexts(items: seq<Val>, depth: nat): seq<string> {
    seq(|items|, i requires 0 <= i < |items| => Tabs(depth + 1) + Json(items[i], depth + 1))
  }

  function EntryTexts(entries: Entries, depth: nat): seq<string> {
    seq(|entries|, i requires 0 <= i < |entries| =>
      Tabs(depth + 1) + (Quoted(entries[i].0) + ([':', ' '] + Json(entries[i].1, depth + 1))))
  }

  lemma LineIs(pad: string, body: string, rest: string)
    ensures (pad + (body + ([','] + ['\n']))) + rest == (pad + body) + ([',', '\n'] + rest)
    ensures pad + (body + ([] + ['\n'])) == (pad + body) + ['\n']
  {
  }

  lemma {:induction false} ItemLinesAre(items: seq<Val>, depth: nat)
    requires items != []
    ensures ItemLines(items, depth) == Separated(ItemTexts(items, depth)) + ['\n']
  {
    var texts := ItemTexts(items, depth);
    PadIsTabs(depth + 1);
    var pad, body := Tabs(depth + 1), Json(items[0], depth + 1);
    if |items| == 1 {
      LineIs(pad, body, []);
      assert ItemLines(items[1..], depth) == [];
    } else {
      ItemLinesAre(items[1..], depth);
      assert texts[1..] == ItemTexts(items[1..], depth);
      LineIs(pad, body, Separated(texts[1..]) + ['\n']);
      JoinedLine(pad + body, Separated(texts[1..]));
    }
  }

  lemma JoinedLine(line: string, rest: string)
    ensures (line + ([',', '\n'] + rest)) + ['\n'] == line + ([',', '\n'] + (rest + ['\n']))
  {
  }

  lemma EntryBody(key: string, value: string, end: string)
    ensures (Quoted(key) + [':', ' ']) + (value + end) == (Quoted(key) + ([':', ' '] + value)) + end
  {
  }

  lemma {:induction false} EntryLinesAre(entries: Entries, depth: nat)
    requires entries != []
    ensures EntryLines(entries, depth) == Separated(EntryTexts(entries, depth)) + ['\n']
  {
    var texts := EntryTexts(entries, depth);
    PadIsTabs(depth + 1);
    var key, value := entries[0].0, Json(entries[0].1, depth + 1);
    var pad, body := Tabs(depth + 1), Quoted(key) + ([':', ' '] + value);
    EntryBody(key, value, Comma(|entries| > 1) + ['\n']);
    if |entries| == 1 {
      LineIs(pad, body, []);
      assert EntryLines(entries[1..], depth) == [];
    } else {
      EntryLinesAre(entries[1..], depth);
      assert texts[1..] == EntryTexts(entries[1..], depth);
      LineIs(pad, body, Separated(texts[1..]) + ['\n']);
      JoinedLine(pad + body, Separated(texts[1..]));
    }
  }

  /** Every item and every entry on its own line, one tab deeper; empty ones on no line at all. */
  lemma LayoutIs(v: Val, depth: nat)
    ensures v.Str? ==> Json(v, depth) == Quoted(v.s)
    ensures v.Num? ==> Json(v, depth) == v.text
    ensures v == Bool(true) ==> Json(v, depth) == ['t', 'r', 'u', 'e']
    ensures v == Bool(false) ==> Json(v, depth) == ['f', 'a', 'l', 's', 'e']
    ensures v == Null ==> Json(v, depth) == ['n', 'u', 'l', 'l']
    ensures v == Arr([]) ==> Json(v, depth) == ['[', ']']
    ensures v == Obj([]) ==> Json(v, depth) == ['{', '}']
    ensures v.Arr? && v.items != []
            ==> Json(v, depth)
                == ['[', '\n'] + (Separated(ItemTexts(v.items, depth)) + (['\n'] + (Tabs(depth) + [']'])))
    ensures v.Obj? && v.entries != []
            ==> Json(v, depth)
                == ['{', '\n'] + (Separated(EntryTexts(v.entries, depth)) + (['\n'] + (Tabs(depth) + ['}'])))
  {
    PadIsTabs(depth);
    if v.Arr? && v.items != [] {
      ItemLinesAre(v.items, depth);
      Reassociate(Separated(ItemTexts(v.items, depth)), ['\n'], Tabs(depth) + [']']);
    }
    if v.Obj? && v.entries != [] {
      EntryLinesAre(v.entries, depth);
      Reassociate(Separated(EntryTexts(v.entries, depth)), ['\n'], Tabs(depth) + ['}']);
    }
  }

  lemma Reassociate(a: string, b: string, c: string)
    ensures (a + b) + c == a + (b + c)
  {
  }
}
