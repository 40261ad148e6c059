/** The ordered JSON value, and the printer with tab indentation. */
module TsData {
  import opened Wrappers

  /** Object keys keep declaration order and may repeat; a numeral is kept as its source text. */
  datatype Val =
    | Str(s: string)
    | Num(text: string)
    | Bool(b: bool)
    | Null
    | Arr(items: seq<Val>)
    | Obj(entries: seq<(string, Val)>)
  {
    /** The value at the first entry named `key`. */
    function Get(key: string): Option<Val> {
      if Obj? && FirstIndex(entries, key) < |entries| then Some(entries[FirstIndex(entries, key)].1) else None
    }

    /** `set`: replaces the first entry named `key` where it stands; `None` when there is none. */
    function Set(key: string, value: Val): Option<Val> {
      if Obj? && FirstIndex(entries, key) < |entries|
      then Some(Obj(entries[FirstIndex(entries, key) := (entries[FirstIndex(entries, key)].0, value)]))
      else None
    }

    /** `remove`: drops every entry named `key`; `None` when there is none. */
    function Remove(key: string): Option<Val> {
      if Obj? && |Without(entries, key)| != |entries| then Some(Obj(Without(entries, key))) else None
    }

    /** `as_str`: the text of a string value. */
    function AsStr(): Option<string> {
      if Str? then Some(s) else None
    }
  }

  type Entries = seq<(string, Val)>

  /** The position of the first entry named `key`, or the length. */
  function FirstIndex(entries: Entries, key: string): (i: nat)
    ensures i <= |entries|
    ensures i < |entries| ==> entries[i].0 == key
    ensures forall j | 0 <= j < i :: entries[j].0 != key
  {
    if entries == [] || entries[0].0 == key then 0 else 1 + FirstIndex(entries[1..], key)
  }

  function Without(entries: Entries, key: string): (r: Entries)
    ensures |r| <= |entries|
    ensures |r| == |entries| <==> forall i | 0 <= i < |entries| :: entries[i].0 != key
    ensures |r| == |entries| ==> r == entries
  {
    if entries == [] then []
    else if entries[0].0 == key then Without(entries[1..], key)
    else [entries[0]] + Without(entries[1..], key)
  }

  /** No key occurs twice. */
  ghost predicate DistinctKeys(entries: Entries) {
    forall i, j | 0 <= i < j < |entries| :: entries[i].0 != entries[j].0
  }

  // --------------------------------------------------------------------------- printing

  const TAB: char := '\t'
  const BACKSPACE: char := 8 as char
  const FORM_FEED: char := 12 as char

  function HexChar(d: nat): char
    requires d < 16
  {
    "0123456789abcdef"[d]
  }

  /** How one character is written inside a string literal. */
  function Escaped(c: char): string {
    if c == '"' then "\\\""
    else if c == '\\' then "\\\\"
    else if c == '\n' then "\\n"
    else if c == '\r' then "\\r"
    else if c == TAB then "\\t"
    else if c == BACKSPACE then "\\b"
    else if c == FORM_FEED then "\\f"
    else if c as int < 0x20 then "\\u00" + [HexChar(c as int / 16), HexChar(c as int % 16)]
    else [c]
  }

  function EscapedAll(s: string): string {
    if s == [] then [] else Escaped(s[0]) + EscapedAll(s[1..])
  }

  function Quoted(s: string): string {
    ['"'] + EscapedAll(s) + ['"']
  }

  function Pad(depth: nat): string {
    if depth == 0 then [] else [TAB] + Pad(depth - 1)
  }

  function Comma(more: bool): string {
    if more then [','] else []
  }

  /** The text of a value at an indentation depth. */
  function Json(v: Val, depth: nat): string
    decreases v, 0
  {
    match v
    case Str(s) => Quoted(s)
    case Num(text) => text
    case Bool(b) => if b then "true" else "false"
    case Null => "null"
    case Arr(items) =>
      if items == [] then "[]" else ['[', '\n'] + (ItemLines(items, depth) + (Pad(depth) + [']']))
    case Obj(entries) =>
      if entries == [] then "{}" else ['{', '\n'] + (EntryLines(entries, depth) + (Pad(depth) + ['}']))
  }

  /** One line of an array; every line but the last ends with a comma. */
  function ItemLine(item: Val, depth: nat, more: bool): string
    decreases item, 1
  {
    Pad(depth + 1) + (Json(item, depth + 1) + (Comma(more) + ['\n']))
  }

  function ItemLines(items: seq<Val>, depth: nat): string
    decreases items, 2
  {
    if items == [] then [] else ItemLine(items[0], depth, |items| > 1) + ItemLines(items[1..], depth)
  }

  function KeyText(key: string): string {
    Quoted(key) + [':', ' ']
  }

  /** One line of an object. */
  function EntryLine(key: string, value: Val, depth: nat, more: bool): string
    decreases value, 1
  {
    Pad(depth + 1) + (KeyText(key) + (Json(value, depth + 1) + (Comma(more) + ['\n'])))
  }

  function EntryLines(entries: Entries, depth: nat): string
    decreases entries, 2
  {
    if entries == [] then []
    else
      var entry := entries[0];
      assert entry.1 < entry;
      EntryLine(entry.0, entry.1, depth, |entries| > 1) + EntryLines(entries[1..], depth)
  }

  /** The output buffer the printer appends to. */
  class JsonWriter {
    var out: string

    constructor ()
      ensures out == []
    {
      out := [];
    }

    method WritePad(depth: nat)
      modifies this
      ensures out == old(out) + Pad(depth)
    {
      for d := 0 to depth
        invariant out + Pad(depth - d) == old(out) + Pad(depth)
      {
        assert out + Pad(depth - d) == out + [TAB] + Pad(depth - d - 1);
        out := out + [TAB];
      }
    }

    method WriteString(s: string)
      modifies this
      ensures out == old(out) + Quoted(s)
    {
      ghost var start := out + ['"'];
      out := out + ['"'];
      for i := 0 to |s|
        invariant out + EscapedAll(s[i..]) == start + EscapedAll(s)
      {
        AppendFirst(out, Escaped(s[i]), EscapedAll(s[i + 1..]));
        assert s[i..][1..] == s[i + 1..];
        out := out + Escaped(s[i]);
      }
      assert out == start + EscapedAll(s);
      out := out + ['"'];
    }

    static lemma AppendFirst(out: string, first: string, rest: string)
      ensures (out + first) + rest == out + (first + rest)
    {
    }

    method WriteJson(v: Val, depth: nat)
      modifies this
      ensures out == old(out) + Json(v, depth)
      decreases v, 1
    {
      match v
      case Str(s) => WriteString(s);
      case Num(text) => out := out + text;
      case Bool(b) => out := out + if b then "true" else "false";
      case Null => out := out + "null";
      case Arr(items) => WriteArray(items, depth);
      case Obj(entries) => WriteObject(entries, depth);
    }

    method WriteArray(items: seq<Val>, depth: nat)
      modifies this
      ensures out == old(out) + Json(Arr(items), depth)
      decreases Arr(items), 0
    {
      if items == [] {
        out := out + "[]";
        return;
      }
      ghost var start := out;
      out := out + ['[', '\n'];
      WriteItemLines(items, depth);
      WritePad(depth);
      out := out + [']'];
      Regroup(start, ['[', '\n'], ItemLines(items, depth), Pad(depth), [']']);
    }

    static lemma Regroup(start: string, a: string, b: string, c: string, d: string)
      ensures start + a + b + c + d == start + (a + (b + (c + d)))
    {
    }

    method WriteItemLines(items: seq<Val>, depth: nat)
      modifies this
      ensures out == old(out) + ItemLines(items, depth)
      decreases items, 3
    {
      ghost var start := out;
      for i := 0 to |items|
        invariant out + ItemLines(items[i..], depth) == start + ItemLines(items, depth)
      {
        var item, more := items[i], i + 1 < |items|;
        AppendFirst(out, ItemLine(item, depth, more), ItemLines(items[i + 1..], depth));
        assert items[i..][1..] == items[i + 1..];
        WriteItemLine(item, depth, more);
      }
    }

    method WriteItemLine(item: Val, depth: nat, more: bool)
      modifies this
      ensures out == old(out) + ItemLine(item, depth, more)
      decreases item, 2
    {
      ghost var start := out;
      WritePad(depth + 1);
      WriteJson(item, depth + 1);
      if more {
        out := out + [','];
      }
      out := out + ['\n'];
      Regroup(start, Pad(depth + 1), Json(item, depth + 1), Comma(more), ['\n']);
    }

    method WriteObject(entries: Entries, depth: nat)
      modifies this
      ensures out == old(out) + Json(Obj(entries), depth)
      decreases Obj(entries), 0
    {
      if entries == [] {
        out := out + "{}";
        return;
      }
      ghost var start := out;
      out := out + ['{', '\n'];
      WriteEntryLines(entries, depth);
      WritePad(depth);
      out := out + ['}'];
      Regroup(start, ['{', '\n'], EntryLines(entries, depth), Pad(depth), ['}']);
    }

    method WriteEntryLines(entries: Entries, depth: nat)
      modifies this
      ensures out == old(out) + EntryLines(entries, depth)
      decreases entries, 3
    {
      ghost var start := out;
      for i := 0 to |entries|
        invariant out + EntryLines(entries[i..], depth) == start + EntryLines(entries, depth)
      {
        var (key, value) := entries[i];
        var more := i + 1 < |entries|;
        AppendFirst(out, EntryLine(key, value, depth, more), EntryLines(entries[i + 1..], depth));
        assert entries[i..][1..] == entries[i + 1..];
        assert value < entries[i];
        WriteEntryLine(key, value, depth, more);
      }
    }

    method WriteEntryLine(key: string, value: Val, depth: nat, more: bool)
      modifies this
      ensures out == old(out) + EntryLine(key, value, depth, more)
      decreases value, 2
    {
      ghost var start := out;
      WritePad(depth + 1);
      ghost var padded := out;
      WriteString(key);
      out := out + [':', ' '];
      assert out == padded + KeyText(key);
      WriteJson(value, depth + 1);
      if more {
        out := out + [','];
      }
      out := out + ['\n'];
      Regroup(padded, KeyText(key), Json(value, depth + 1), Comma(more), ['\n']);
      AppendFirst(start, Pad(depth + 1), KeyText(key) + (Json(value, depth + 1) + (Comma(more) + ['\n'])));
    }
  }

  /** `to_json`. */
  method ToJson(v: Val) returns (text: string)
    ensures text == Json(v, 0)
  {
    var writer := new JsonWriter();
    writer.WriteJson(v, 0);
    text := writer.out;
  }
}
