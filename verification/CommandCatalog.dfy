/** The advertised command list: a grouped stable sort, then the first row of each name. */
module CommandCatalog {
  import opened Wrappers
  import opened Sorting
  import opened Text

  /** What the projection reads of a catalog row; an absent or non-string field is `None`. */
  datatype Row = Row(
    name: Option<string>, source: Option<string>, scope: Option<string>,
    description: Option<string>, argumentHint: Option<string>)

  datatype Command = Command(name: string, description: string, hint: Option<string>)

  type Rows = seq<Row>

  function OrEmpty(s: Option<string>): string {
    if s.Some? then s.value else ""
  }

  function DescribeFallback(row: Row): string {
    var source, scope := OrEmpty(row.source), OrEmpty(row.scope);
    if source == "" && scope == "" then "(command)"
    else "(" + source + (if source != "" && scope != "" then ":" else "") + scope + ")"
  }

  function GroupRank(row: Row): nat {
    if row.source == Some("extension") then 0
    else if row.source == Some("prompt") then 1
    else if row.source == Some("skill") then 2
    else 3
  }

  /** By group, and inside every group but the extensions by the name as it stands. */
  predicate RowLeq(a: Row, b: Row) {
    if GroupRank(a) != GroupRank(b) then GroupRank(a) < GroupRank(b)
    else GroupRank(a) == 0 || TextLeq(OrEmpty(a.name), OrEmpty(b.name))
  }

  function RowOrder(): (Row, Row) -> bool {
    (a: Row, b: Row) => RowLeq(a, b)
  }

  function CommandName(row: Row): string {
    Trim(OrEmpty(row.name))
  }

  /** A row is dropped when it has no name, and a skill when skills are not advertised. */
  predicate IsKept(row: Row, skills: bool) {
    CommandName(row) != "" && (skills || !("skill:" <= CommandName(row)))
  }

  function ToCommand(row: Row): Command {
    var description := Trim(OrEmpty(row.description));
    Command(CommandName(row),
            if description == "" then DescribeFallback(row) else description,
            if OrEmpty(row.argumentHint) != "" then row.argumentHint else None)
  }

  /** A command is its row's trimmed name and description, or where the row comes from; blank hints go. */
  lemma CommandIs(row: Row)
    ensures ToCommand(row).name == if row.name.Some? then Trim(row.name.value) else ""
    ensures var c := ToCommand(row).description;
            var source := if row.source.Some? then row.source.value else "";
            var scope := if row.scope.Some? then row.scope.value else "";
            if row.description.Some? && Trim(row.description.value) != "" then c == Trim(row.description.value)
            else if source == "" && scope == "" then c == "(command)"
            else if scope == "" then c == "(" + source + ")"
            else if source == "" then c == "(" + scope + ")"
            else c == "(" + source + ":" + scope + ")"
    ensures forall h :: ToCommand(row).hint == Some(h) <==> row.argumentHint == Some(h) && h != ""
  {
    var source, scope := OrEmpty(row.source), OrEmpty(row.scope);
    assert Trim("") == "";
    assert "(" + source + "" + scope + ")" == "(" + source + scope + ")";
    assert scope == "" ==> "(" + source + scope + ")" == "(" + source + ")";
    assert source == "" ==> "(" + source + scope + ")" == "(" + scope + ")";
  }

  /** Dropped are the rows whose name is blank, and skills when they are not advertised. */
  lemma KeptIs(row: Row, skills: bool)
    ensures IsKept(row, skills)
            <==> && row.name.Some? && Trim(row.name.value) != ""
                 && (skills || !(|Trim(row.name.value)| >= 6 && Trim(row.name.value)[..6] == "skill:"))
  {
    assert Trim("") == "";
    var name := CommandName(row);
    assert |"skill:"| == 6 && ("skill:" <= name <==> |name| >= 6 && name[..6] == "skill:");
  }

  /** Extensions, prompts, skills, the others; by the raw name in all groups but the first. */
  lemma RowOrderIs(a: Row, b: Row)
    ensures var x := if a.name.Some? then a.name.value else "";
            var y := if b.name.Some? then b.name.value else "";
            var first, second, third := Some("extension"), Some("prompt"), Some("skill");
            RowLeq(a, b)
            <==> if a.source == first then true
                 else if a.source == second then b.source != first && (b.source == second ==> TextLeq(x, y))
                 else if a.source == third then
                   b.source != first && b.source != second && (b.source == third ==> TextLeq(x, y))
                 else
                   b.source != first && b.source != second && b.source != third && TextLeq(x, y)
  {
    assert |"extension"| == 9 && |"prompt"| == 6 && |"skill"| == 5;
  }

  predicate Names(commands: seq<Command>, name: string) {
    exists i :: 0 <= i < |commands| && commands[i].name == name
  }

  /** The first command of each name, in order. */
  function FirstWins(commands: seq<Command>): seq<Command> {
    if commands == [] then []
    else
      var before, last := commands[..|commands| - 1], commands[|commands| - 1];
      FirstWins(before) + if Names(before, last.name) then [] else [last]
  }

  function KeptCommands(rows: Rows, skills: bool): seq<Command> {
    if rows == [] then []
    else
      var last := rows[|rows| - 1];
      KeptCommands(rows[..|rows| - 1], skills) + if IsKept(last, skills) then [ToCommand(last)] else []
  }

  function Project(rows: Rows, skills: bool): seq<Command> {
    FirstWins(KeptCommands(StableSort(rows, RowOrder()), skills))
  }

  /** The names seen so far. */
  ghost predicate IsSeen(seen: set<string>, commands: seq<Command>) {
    forall name :: name in seen <==> Names(commands, name)
  }

  lemma SeenGrows(seen: set<string>, commands: seq<Command>, c: Command)
    requires IsSeen(seen, commands)
    ensures IsSeen(seen + {c.name}, commands + [c])
    ensures FirstWins(commands + [c]) == FirstWins(commands) + if c.name in seen then [] else [c]
  {
    var longer := commands + [c];
    assert longer[..|commands|] == commands;
    forall name
      ensures name in seen + {c.name} <==> Names(longer, name)
    {
      if Names(commands, name) {
        var i :| 0 <= i < |commands| && commands[i].name == name;
        assert longer[i].name == name;
      }
      assert longer[|commands|].name == c.name;
    }
  }

  /** The same step, by cases. */
  lemma OneMoreKept(seen: set<string>, commands: seq<Command>, c: Command)
    requires IsSeen(seen, commands)
    ensures c.name in seen ==> IsSeen(seen, commands + [c]) && FirstWins(commands + [c]) == FirstWins(commands)
    ensures c.name !in seen ==> IsSeen(seen + {c.name}, commands + [c])
                                && FirstWins(commands + [c]) == FirstWins(commands) + [c]
  {
    SeenGrows(seen, commands, c);
    if c.name in seen {
      assert seen + {c.name} == seen && FirstWins(commands) + [] == FirstWins(commands);
    }
  }

  method MakeCommand(row: Row) returns (command: Command)
    ensures command == ToCommand(row)
  {
    var description := Trim(OrEmpty(row.description));
    if description == "" {
      description := DescribeFallback(row);
    }
    var hint := None;
    if row.argumentHint.Some? && row.argumentHint.value != "" {
      hint := row.argumentHint;
    }
    command := Command(CommandName(row), description, hint);
  }

  lemma KeptOneMore(rows: Rows, n: nat, skills: bool)
    requires n < |rows|
    ensures KeptCommands(rows[..n + 1], skills)
            == if IsKept(rows[n], skills) then KeptCommands(rows[..n], skills) + [ToCommand(rows[n])]
               else KeptCommands(rows[..n], skills)
  {
    assert rows[..n + 1][..n] == rows[..n];
    assert KeptCommands(rows[..n], skills) + [] == KeptCommands(rows[..n], skills);
  }

  /** `project_catalog`, run: one pass over the sorted rows with a set of seen names. */
  method ProjectCatalog(rows: Rows, skills: bool) returns (out: seq<Command>)
    ensures out == Project(rows, skills)
  {
    var ordered := StableSort(rows, RowOrder());
    var seen: set<string> := {};
    ghost var kept: seq<Command> := [];
    out := [];
    for n := 0 to |ordered|
      invariant kept == KeptCommands(ordered[..n], skills)
      invariant out == FirstWins(kept) && IsSeen(seen, kept)
    {
      var row := ordered[n];
      var name := CommandName(row);
      KeptOneMore(ordered, n, skills);
      if name == "" || (!skills && "skill:" <= name) {
        continue;
      }
      var command := MakeCommand(row);
      OneMoreKept(seen, kept, command);
      kept := kept + [command];
      if name in seen {
        continue;
      }
      seen := seen + {name};
      out := out + [command];
    }
    assert ordered[..|ordered|] == ordered;
  }

  /** `merge_commands`, run: the built-ins lead and win. */
  method MergeCommands(builtins: seq<Command>, user: seq<Command>) returns (out: seq<Command>)
    ensures out == FirstWins(builtins + user)
  {
    var all := builtins + user;
    var seen: set<string> := {};
    out := [];
    for n := 0 to |all|
      invariant out == FirstWins(all[..n])
      invariant IsSeen(seen, all[..n])
    {
      var command := all[n];
      OneMoreKept(seen, all[..n], command);
      assert all[..n + 1] == all[..n] + [command];
      if command.name !in seen {
        seen := seen + {command.name};
        out := out + [command];
      }
    }
    assert all[..|all|] == all;
  }

  // --------------------------------------------------------------------- first one wins

  /** The position of the first command of that name. */
  ghost predicate IsFirst(commands: seq<Command>, i: nat) {
    i < |commands| && forall j | 0 <= j < i :: commands[j].name != commands[i].name
  }

  ghost predicate UniqueNames(commands: seq<Command>) {
    forall i, j | 0 <= i < j < |commands| :: commands[i].name != commands[j].name
  }

  /** The result holds every name once. */
  lemma {:induction false} FirstWinsKeepsNames(commands: seq<Command>)
    ensures UniqueNames(FirstWins(commands))
    ensures forall name :: Names(FirstWins(commands), name) <==> Names(commands, name)
  {
    if commands != [] {
      var before, last := commands[..|commands| - 1], commands[|commands| - 1];
      var kept := FirstWins(before);
      FirstWinsKeepsNames(before);
      assert kept + [] == kept && before + [last] == commands;
      forall name
        ensures Names(FirstWins(commands), name) <==> Names(commands, name)
      {
        NamesOfAppended(before, last, name);
        NamesOfAppended(kept, last, name);
      }
      forall i | 0 <= i < |kept|
        ensures !Names(before, last.name) ==> kept[i].name != last.name
      {
        assert Names(kept, kept[i].name);
      }
    }
  }

  ghost predicate FirstOfItsName(commands: seq<Command>, c: Command) {
    exists i: nat :: IsFirst(commands, i) && commands[i] == c
  }

  /** The result holds exactly the first command of each name. */
  lemma {:induction false} FirstWinsKeepsFirsts(commands: seq<Command>, c: Command)
    ensures c in FirstWins(commands) <==> FirstOfItsName(commands, c)
  {
    if commands != [] {
      var before, last := commands[..|commands| - 1], commands[|commands| - 1];
      FirstWinsKeepsFirsts(before, c);
      assert before + [last] == commands;
      FirstsOfAppended(before, last, c);
    }
  }

  lemma FirstsOfAppended(commands: seq<Command>, last: Command, c: Command)
    ensures FirstOfItsName(commands + [last], c)
            <==> FirstOfItsName(commands, c) || (c == last && !Names(commands, last.name))
  {
    var n, longer := |commands|, commands + [last];
    if FirstOfItsName(commands, c) {
      var i: nat :| IsFirst(commands, i) && commands[i] == c;
      assert IsFirst(longer, i) && longer[i] == c;
    }
    if c == last && !Names(commands, last.name) {
      assert IsFirst(longer, n) && longer[n] == c;
    }
    if FirstOfItsName(longer, c) {
      var i: nat :| IsFirst(longer, i) && longer[i] == c;
      assert forall j | 0 <= j < n :: longer[j] == commands[j];
      assert i < n ==> IsFirst(commands, i) && commands[i] == c;
    }
  }

  lemma NamesOfAppended(commands: seq<Command>, c: Command, name: string)
    ensures Names(commands + [c], name) <==> Names(commands, name) || c.name == name
  {
    var longer := commands + [c];
    if Names(commands, name) {
      var i :| 0 <= i < |commands| && commands[i].name == name;
      assert longer[i].name == name;
    }
    assert longer[|commands|] == c;
  }

  /** The built-ins come first, whole and in order when their names are distinct. */
  lemma {:induction false} FirstWinsOfPrefix(commands: seq<Command>, more: seq<Command>)
    ensures FirstWins(commands) <= FirstWins(commands + more)
  {
    if more == [] {
      assert commands + more == commands;
    } else {
      var n := |more| - 1;
      FirstWinsOfPrefix(commands, more[..n]);
      assert (commands + more)[..|commands| + n] == commands + more[..n];
    }
  }

  lemma {:induction false} DistinctNamesAllWin(commands: seq<Command>)
    requires UniqueNames(commands)
    ensures FirstWins(commands) == commands
  {
    if commands != [] {
      var before, last := commands[..|commands| - 1], commands[|commands| - 1];
      UniqueNamesSplit(commands);
      DistinctNamesAllWin(before);
      assert before + [last] == commands;
    }
  }

  lemma UniqueNamesSplit(commands: seq<Command>)
    requires UniqueNames(commands) && commands != []
    ensures UniqueNames(commands[..|commands| - 1])
    ensures !Names(commands[..|commands| - 1], commands[|commands| - 1].name)
  {
  }

  /** No user command shadows a built-in or changes its place, and every user name is advertised. */
  lemma BuiltinsLead(builtins: seq<Command>, user: seq<Command>)
    requires UniqueNames(builtins)
    ensures builtins <= FirstWins(builtins + user)
    ensures forall c | c in FirstWins(builtins + user)[|builtins|..] :: !Names(builtins, c.name)
    ensures forall c | c in user :: Names(FirstWins(builtins + user), c.name)
  {
    FirstWinsOfPrefix(builtins, user);
    DistinctNamesAllWin(builtins);
    FirstWinsKeepsNames(builtins + user);
    AfterPrefixIsNew(builtins, FirstWins(builtins + user));
    AppendedAreNamed(builtins, user);
  }

  lemma AppendedAreNamed(commands: seq<Command>, more: seq<Command>)
    ensures forall c | c in more :: Names(commands + more, c.name)
  {
    forall c | c in more
      ensures Names(commands + more, c.name)
    {
      var k :| 0 <= k < |more| && more[k] == c;
      assert (commands + more)[|commands| + k].name == c.name;
    }
  }

  lemma AfterPrefixIsNew(first: seq<Command>, all: seq<Command>)
    requires first <= all
    requires UniqueNames(all)
    ensures forall c | c in all[|first|..] :: !Names(first, c.name)
  {
    forall c | c in all[|first|..]
      ensures !Names(first, c.name)
    {
      var k :| 0 <= k < |all[|first|..]| && all[|first|..][k] == c;
      assert all[|first| + k] == c;
      assert forall i | 0 <= i < |first| :: first[i] == all[i];
    }
  }

  // ----------------------------------------------------------------- what is advertised

  lemma {:induction false} KeptCommandsAreKept(rows: Rows, skills: bool)
    ensures forall c | c in KeptCommands(rows, skills) :: exists r :: r in rows && IsKept(r, skills) && ToCommand(r) == c
    ensures forall r | r in rows && IsKept(r, skills) :: ToCommand(r) in KeptCommands(rows, skills)
  {
    if rows != [] {
      KeptCommandsAreKept(rows[..|rows| - 1], skills);
      assert rows == rows[..|rows| - 1] + [rows[|rows| - 1]];
    }
  }

  /** Names are unique and non-empty, no description is empty, and every kept name is there. */
  lemma ProjectionIsAdvertisable(rows: Rows, skills: bool)
    ensures UniqueNames(Project(rows, skills))
    ensures forall c | c in Project(rows, skills) ::
              c.name != "" && c.description != "" && (skills || !("skill:" <= c.name))
    ensures forall name :: Names(Project(rows, skills), name)
                           <==> exists r :: r in rows && IsKept(r, skills) && CommandName(r) == name
  {
    var ordered := StableSort(rows, RowOrder());
    var kept := KeptCommands(ordered, skills);
    FirstWinsKeepsNames(kept);
    KeptCommandsAreKept(ordered, skills);
    assert forall r :: r in rows <==> r in ordered by {
      assert forall r :: (r in rows <==> r in multiset(rows)) && (r in ordered <==> r in multiset(ordered));
    }
    forall c | c in Project(rows, skills)
      ensures c.name != "" && c.description != "" && (skills || !("skill:" <= c.name))
    {
      FirstWinsKeepsFirsts(kept, c);
      assert c in kept;
    }
    forall name
      ensures Names(kept, name) <==> exists r :: r in rows && IsKept(r, skills) && CommandName(r) == name
    {
      if Names(kept, name) {
        var i :| 0 <= i < |kept| && kept[i].name == name;
        assert kept[i] in kept;
      }
      if r :| r in rows && IsKept(r, skills) && CommandName(r) == name {
        assert ToCommand(r) in kept;
        var i :| 0 <= i < |kept| && kept[i] == ToCommand(r);
        assert kept[i].name == name;
      }
    }
  }

  /** `p` picks positions below `bound`, in order. */
  ghost predicate Picks(p: seq<nat>, bound: nat) {
    && (forall i | 0 <= i < |p| :: p[i] < bound)
    && (forall i, j | 0 <= i < j < |p| :: p[i] < p[j])
  }

  /** `out[i]` is the command of the kept row at `p[i]`. */
  ghost predicate KeptAt(rows: Rows, skills: bool, out: seq<Command>, p: seq<nat>) {
    && |p| == |out| && Picks(p, |rows|)
    && forall i | 0 <= i < |p| :: IsKept(rows[p[i]], skills) && out[i] == ToCommand(rows[p[i]])
  }

  lemma {:induction false} KeptPositions(rows: Rows, skills: bool) returns (p: seq<nat>)
    ensures KeptAt(rows, skills, KeptCommands(rows, skills), p)
  {
    p := [];
    if rows != [] {
      var n := |rows| - 1;
      var early := KeptPositions(rows[..n], skills);
      KeptAtLonger(rows, n, skills, KeptCommands(rows[..n], skills), early);
      p := early + if IsKept(rows[n], skills) then [n] else [];
    }
  }

  lemma KeptAtLonger(rows: Rows, n: nat, skills: bool, out: seq<Command>, p: seq<nat>)
    requires n < |rows| && KeptAt(rows[..n], skills, out, p)
    ensures var isKept := IsKept(rows[n], skills);
            KeptAt(rows, skills, out + (if isKept then [ToCommand(rows[n])] else []), p + (if isKept then [n] else []))
  {
    assert out + [] == out && p + [] == p;
    assert forall i | 0 <= i < |p| :: rows[..n][p[i]] == rows[p[i]];
  }

  /** `out[i]` is the command at `p[i]`, the first of its name. */
  ghost predicate FirstAt(commands: seq<Command>, out: seq<Command>, p: seq<nat>) {
    && |p| == |out| && Picks(p, |commands|)
    && forall i | 0 <= i < |p| :: IsFirst(commands, p[i]) && out[i] == commands[p[i]]
  }

  lemma {:induction false} FirstPositions(commands: seq<Command>) returns (p: seq<nat>)
    ensures FirstAt(commands, FirstWins(commands), p)
  {
    p := [];
    if commands != [] {
      var n := |commands| - 1;
      var early := FirstPositions(commands[..n]);
      FirstAtLonger(commands, n, FirstWins(commands[..n]), early);
      p := early + if Names(commands[..n], commands[n].name) then [] else [n];
    }
  }

  lemma FirstAtLonger(commands: seq<Command>, n: nat, out: seq<Command>, p: seq<nat>)
    requires n < |commands| && FirstAt(commands[..n], out, p)
    ensures var isOld := Names(commands[..n], commands[n].name);
            FirstAt(commands, out + (if isOld then [] else [commands[n]]), p + (if isOld then [] else [n]))
  {
    var before := commands[..n];
    assert out + [] == out && p + [] == p;
    assert forall j | 0 <= j < n :: before[j] == commands[j];
    forall i | 0 <= i < |p|
      ensures IsFirst(commands, p[i]) && out[i] == commands[p[i]]
    {
      assert IsFirst(before, p[i]);
    }
  }

  /** The list follows the sorted rows: each command is that of a kept row, in the order of the rows. */
  lemma ProjectionFollowsOrder(rows: Rows, skills: bool) returns (p: seq<nat>)
    ensures var ordered := StableSort(rows, RowOrder());
            && KeptAt(ordered, skills, Project(rows, skills), p)
            && (forall i, j | 0 <= i < j < |p| :: RowLeq(ordered[p[i]], ordered[p[j]]))
  {
    p := ProjectedPositions(StableSort(rows, RowOrder()), skills);
    RowOrderIsTotal();
    StableSortSorts(rows, RowOrder());
    SortedPicks(StableSort(rows, RowOrder()), p);
  }

  lemma ProjectedPositions(ordered: Rows, skills: bool) returns (p: seq<nat>)
    ensures KeptAt(ordered, skills, FirstWins(KeptCommands(ordered, skills)), p)
  {
    var kept := KeptPositions(ordered, skills);
    var commands := KeptCommands(ordered, skills);
    var first := FirstPositions(commands);
    p := seq(|first|, i requires 0 <= i < |first| => kept[first[i]]);
    ComposePositions(ordered, skills, commands, FirstWins(commands), kept, first, p);
  }

  lemma ComposePositions(
    rows: Rows, skills: bool, commands: seq<Command>, out: seq<Command>, kept: seq<nat>, first: seq<nat>, p: seq<nat>)
    requires KeptAt(rows, skills, commands, kept) && FirstAt(commands, out, first)
    requires |p| == |first| && forall i | 0 <= i < |p| :: p[i] == kept[first[i]]
    ensures KeptAt(rows, skills, out, p)
  {
  }

  lemma SortedPicks(ordered: Rows, p: seq<nat>)
    requires Sorted(ordered, RowOrder()) && Picks(p, |ordered|)
    ensures forall i, j | 0 <= i < j < |p| :: RowLeq(ordered[p[i]], ordered[p[j]])
  {
    forall i, j | 0 <= i < j < |p|
      ensures RowLeq(ordered[p[i]], ordered[p[j]])
    {
      assert RowOrder()(ordered[p[i]], ordered[p[j]]);
    }
  }

  // -------------------------------------------------------------- independence of order

  function Extensions(rows: Rows): Rows {
    if rows == [] then []
    else Extension(rows[0]) + Extensions(rows[1..])
  }

  function Extension(r: Row): Rows {
    if GroupRank(r) == 0 then [r] else []
  }

  /** Outside the extensions, no group has a raw name twice. */
  ghost predicate DistinctRawNames(rows: Rows) {
    forall i, j | 0 <= i < j < |rows| && GroupRank(rows[i]) == GroupRank(rows[j]) != 0 ::
      OrEmpty(rows[i].name) != OrEmpty(rows[j].name)
  }

  lemma RowOrderIsTotal()
    ensures TotalPreorder(RowOrder())
  {
    forall a, b ensures RowOrder()(a, b) || RowOrder()(b, a) {
      TextOrderIsTotal(OrEmpty(a.name), OrEmpty(b.name));
    }
    forall a, b, c | RowOrder()(a, b) && RowOrder()(b, c) ensures RowOrder()(a, c) {
      if TextLeq(OrEmpty(a.name), OrEmpty(b.name)) && TextLeq(OrEmpty(b.name), OrEmpty(c.name)) {
        TextOrderIsTransitive(OrEmpty(a.name), OrEmpty(b.name), OrEmpty(c.name));
      }
    }
  }

  lemma RowsTieIff(a: Row, b: Row)
    ensures SameRank(a, b, RowOrder())
            <==> GroupRank(a) == GroupRank(b) && (GroupRank(a) == 0 || OrEmpty(a.name) == OrEmpty(b.name))
  {
    TextOrderIsTotal(OrEmpty(a.name), OrEmpty(b.name));
  }

  lemma {:induction false} ExtensionTies(rows: Rows, x: Row)
    requires GroupRank(x) == 0
    ensures Ties(rows, x, RowOrder()) == Extensions(rows)
  {
    if rows != [] {
      ExtensionTies(rows[1..], x);
      RowsTieIff(rows[0], x);
    }
  }

  lemma {:induction false} TiesAsMultiset(rows: Rows, x: Row, r: Row)
    ensures multiset(Ties(rows, x, RowOrder()))[r] == if SameRank(r, x, RowOrder()) then multiset(rows)[r] else 0
  {
    if rows != [] {
      TiesAsMultiset(rows[1..], x, r);
      assert rows == [rows[0]] + rows[1..];
    }
  }

  /** A kept row that sorts strictly before `r` has its command name. */
  ghost predicate Shadowed(rows: Rows, skills: bool, r: Row) {
    exists q :: q in rows && IsKept(q, skills) && CommandName(q) == CommandName(r) && !RowLeq(r, q)
  }

  /** Rows that tie outside the extensions are dropped, or give one command, or are shadowed. */
  ghost predicate OrderFree(rows: Rows, skills: bool) {
    forall r, q | r in rows && q in rows && GroupRank(r) != 0 && SameRank(r, q, RowOrder()) && IsKept(r, skills) ::
      ToCommand(r) == ToCommand(q) || Shadowed(rows, skills, r)
  }

  lemma DistinctRawNamesAreOrderFree(rows: Rows, skills: bool)
    requires DistinctRawNames(rows)
    ensures OrderFree(rows, skills)
  {
    forall r, q | r in rows && q in rows && GroupRank(r) != 0 && SameRank(r, q, RowOrder())
      ensures r == q
    {
      var i :| 0 <= i < |rows| && rows[i] == r;
      var j :| 0 <= j < |rows| && rows[j] == q;
      RowsTieIff(r, q);
    }
  }

  /** Rows that tie in the extension group are the same. */
  function SameIfExtension(): (Row, Row) -> bool {
    (r: Row, q: Row) => GroupRank(r) != 0 || r == q
  }

  lemma {:induction false} TiesTie(rows: Rows, x: Row)
    ensures forall r | r in Ties(rows, x, RowOrder()) :: SameRank(r, x, RowOrder())
  {
    if rows != [] {
      TiesTie(rows[1..], x);
    }
  }

  lemma PermutedTies(a: Rows, b: Rows, x: Row)
    requires multiset(a) == multiset(b) && Extensions(a) == Extensions(b)
    ensures Pointwise(Ties(a, x, RowOrder()), Ties(b, x, RowOrder()), SameIfExtension())
  {
    var p, q := Ties(a, x, RowOrder()), Ties(b, x, RowOrder());
    if GroupRank(x) == 0 {
      ExtensionTies(a, x);
      ExtensionTies(b, x);
    } else {
      forall r
        ensures multiset(p)[r] == multiset(q)[r]
      {
        TiesAsMultiset(a, x, r);
        TiesAsMultiset(b, x, r);
      }
      assert multiset(p) == multiset(q);
      assert |multiset(p)| == |p| && |multiset(q)| == |q|;
      TiesTie(a, x);
      forall i | 0 <= i < |p|
        ensures GroupRank(p[i]) != 0
      {
        assert p[i] in p;
        RowsTieIff(p[i], x);
      }
    }
  }

  /** A permutation that keeps the order of the extensions sorts to rows that tie one by one. */
  lemma PermutedSorts(a: Rows, b: Rows)
    requires multiset(a) == multiset(b) && Extensions(a) == Extensions(b)
    ensures var x, y := StableSort(a, RowOrder()), StableSort(b, RowOrder());
            && Pointwise(x, y, SameIfExtension())
            && forall i | 0 <= i < |x| :: SameRank(x[i], y[i], RowOrder())
  {
    RowOrderIsTotal();
    StableSortSorts(a, RowOrder());
    StableSortSorts(b, RowOrder());
    forall x
      ensures Pointwise(Ties(StableSort(a, RowOrder()), x, RowOrder()), Ties(StableSort(b, RowOrder()), x, RowOrder()),
                        SameIfExtension())
    {
      StableSortIsStable(a, x, RowOrder());
      StableSortIsStable(b, x, RowOrder());
      PermutedTies(a, b, x);
    }
    SortedAgreeByTies(StableSort(a, RowOrder()), StableSort(b, RowOrder()), RowOrder(), SameIfExtension());
  }

  lemma SortedRowsAreRows(rows: Rows)
    ensures forall r :: r in StableSort(rows, RowOrder()) <==> r in rows
  {
    assert forall r :: (r in rows <==> r in multiset(rows))
                       && (r in StableSort(rows, RowOrder()) <==> r in multiset(StableSort(rows, RowOrder())));
  }

  lemma SortsBefore(x: Rows, n: nat, k: nat)
    requires Sorted(x, RowOrder()) && n < |x| && k < |x| && !RowOrder()(x[n], x[k])
    ensures k < n
  {
    TextOrderIsTotal(OrEmpty(x[n].name), OrEmpty(x[n].name));
  }

  lemma NamedByKept(rows: Rows, skills: bool, q: Row)
    requires q in rows && IsKept(q, skills)
    ensures Names(KeptCommands(rows, skills), CommandName(q))
  {
    var commands := KeptCommands(rows, skills);
    KeptCommandsAreKept(rows, skills);
    var i :| 0 <= i < |commands| && commands[i] == ToCommand(q);
    assert commands[i].name == CommandName(q);
  }

  /** A row shadowed among the sorted rows has its name taken by the time it comes. */
  lemma ShadowedIsTaken(x: Rows, skills: bool, n: nat)
    requires Sorted(x, RowOrder()) && n < |x| && Shadowed(x, skills, x[n])
    ensures Names(KeptCommands(x[..n], skills), CommandName(x[n]))
  {
    var q :| q in x && IsKept(q, skills) && CommandName(q) == CommandName(x[n]) && !RowLeq(x[n], q);
    var k :| 0 <= k < |x| && x[k] == q;
    SortsBefore(x, n, k);
    assert x[..n][k] == q;
    NamedByKept(x[..n], skills, q);
  }

  lemma TiedRowsName(r: Row, q: Row, skills: bool)
    requires SameRank(r, q, RowOrder()) && GroupRank(r) != 0
    ensures CommandName(r) == CommandName(q) && (IsKept(r, skills) <==> IsKept(q, skills))
  {
    RowsTieIff(r, q);
  }

  /** `y` is `x` with some of the rows that tie exchanged, extensions in place. */
  ghost predicate Exchanged(x: Rows, y: Rows) {
    && Sorted(x, RowOrder()) && |x| == |y|
    && forall i | 0 <= i < |x| :: ExchangedRow(x, x[i], y[i])
  }

  ghost predicate ExchangedRow(x: Rows, r: Row, q: Row) {
    q in x && SameRank(r, q, RowOrder()) && (GroupRank(r) == 0 ==> r == q)
  }

  lemma ExchangedRowsAgree(x: Rows, y: Rows, skills: bool, n: nat)
    requires Exchanged(x, y) && OrderFree(x, skills) && n < |x|
    ensures CommandName(x[n]) == CommandName(y[n]) && (IsKept(x[n], skills) <==> IsKept(y[n], skills))
    ensures IsKept(x[n], skills) && ToCommand(x[n]) != ToCommand(y[n])
            ==> Names(KeptCommands(x[..n], skills), CommandName(x[n]))
  {
    assert ExchangedRow(x, x[n], y[n]) && x[n] in x;
    if GroupRank(x[n]) != 0 {
      TiedRowsName(x[n], y[n], skills);
      if IsKept(x[n], skills) && ToCommand(x[n]) != ToCommand(y[n]) {
        ShadowedIsTaken(x, skills, n);
      }
    }
  }

  /** The two passes agree after every row. */
  lemma {:induction false} PassesAgree(x: Rows, y: Rows, skills: bool, n: nat)
    requires Exchanged(x, y) && OrderFree(x, skills) && n <= |x|
    ensures FirstWins(KeptCommands(x[..n], skills)) == FirstWins(KeptCommands(y[..n], skills))
  {
    if n == 0 {
      assert x[..0] == y[..0];
    } else {
      var m := n - 1;
      PassesAgree(x, y, skills, m);
      KeptOneMore(x, m, skills);
      KeptOneMore(y, m, skills);
      ExchangedRowsAgree(x, y, skills, m);
      if IsKept(x[m], skills) {
        SamePassOneMore(
          KeptCommands(x[..m], skills), KeptCommands(y[..m], skills), ToCommand(x[m]), ToCommand(y[m]));
      }
    }
  }

  lemma SamePassOneMore(cs: seq<Command>, ds: seq<Command>, c: Command, d: Command)
    requires FirstWins(cs) == FirstWins(ds) && c.name == d.name
    requires c == d || Names(cs, c.name)
    ensures FirstWins(cs + [c]) == FirstWins(ds + [d])
  {
    FirstWinsKeepsNames(cs);
    FirstWinsKeepsNames(ds);
    assert (cs + [c])[..|cs|] == cs && (ds + [d])[..|ds|] == ds;
    assert Names(cs, c.name) <==> Names(ds, c.name);
  }

  /**
   The advertised list does not depend on the order in which a hash map handed the rows over:
   permuting all but the extensions, which keep theirs, changes nothing.
   */
  lemma ProjectionIgnoresHashOrder(a: Rows, b: Rows, skills: bool)
    requires multiset(a) == multiset(b) && Extensions(a) == Extensions(b)
    requires OrderFree(a, skills)
    ensures Project(a, skills) == Project(b, skills)
  {
    SortedRowsAreRows(a);
    OrderFreeSorted(a, StableSort(a, RowOrder()), skills);
    PermutedExchanges(a, b);
    ExchangedProjectsTheSame(StableSort(a, RowOrder()), StableSort(b, RowOrder()), skills);
  }

  lemma ExchangedProjectsTheSame(x: Rows, y: Rows, skills: bool)
    requires Exchanged(x, y) && OrderFree(x, skills)
    ensures FirstWins(KeptCommands(x, skills)) == FirstWins(KeptCommands(y, skills))
  {
    PassesAgree(x, y, skills, |x|);
    assert x[..|x|] == x && y[..|x|] == y;
  }

  lemma PermutedExchanges(a: Rows, b: Rows)
    requires multiset(a) == multiset(b) && Extensions(a) == Extensions(b)
    ensures Exchanged(StableSort(a, RowOrder()), StableSort(b, RowOrder()))
  {
    var x, y := StableSort(a, RowOrder()), StableSort(b, RowOrder());
    RowOrderIsTotal();
    StableSortSorts(a, RowOrder());
    PermutedSorts(a, b);
    forall i | 0 <= i < |x|
      ensures ExchangedRow(x, x[i], y[i])
    {
      assert SameIfExtension()(x[i], y[i]);
      assert y[i] in multiset(y);
    }
  }

  lemma OrderFreeSorted(rows: Rows, sorted: Rows, skills: bool)
    requires OrderFree(rows, skills) && forall r :: r in sorted <==> r in rows
    ensures OrderFree(sorted, skills)
  {
    forall r, q | r in sorted && q in sorted && GroupRank(r) != 0 && SameRank(r, q, RowOrder()) && IsKept(r, skills)
      ensures ToCommand(r) == ToCommand(q) || Shadowed(sorted, skills, r)
    {
      if ToCommand(r) != ToCommand(q) {
        var p :| p in rows && IsKept(p, skills) && CommandName(p) == CommandName(r) && !RowLeq(r, p);
        assert p in sorted;
      }
    }
  }

  function Emitted(r: Row, skills: bool): seq<Command> {
    if IsKept(r, skills) then [ToCommand(r)] else []
  }

  lemma KeptOfLonger(rows: Rows, r: Row, skills: bool)
    ensures KeptCommands(rows + [r], skills) == KeptCommands(rows, skills) + Emitted(r, skills)
  {
    assert (rows + [r])[..|rows|] == rows;
  }

  lemma {:induction false} KeptOfConcatenation(a: Rows, b: Rows, skills: bool)
    ensures KeptCommands(a + b, skills) == KeptCommands(a, skills) + KeptCommands(b, skills)
  {
    if b == [] {
      assert a + b == a;
    } else {
      var early, last := b[..|b| - 1], b[|b| - 1];
      KeptOfConcatenation(a, early, skills);
      KeptOfBothLonger(a, early, last, skills);
      LastApart(a, b);
    }
  }

  lemma LastApart(a: Rows, b: Rows)
    requires b != []
    ensures var early, last := b[..|b| - 1], b[|b| - 1];
            b == early + [last] && a + b == (a + early) + [last]
  {
  }

  lemma KeptOfBothLonger(a: Rows, b: Rows, last: Row, skills: bool)
    requires KeptCommands(a + b, skills) == KeptCommands(a, skills) + KeptCommands(b, skills)
    ensures KeptCommands((a + b) + [last], skills) == KeptCommands(a, skills) + KeptCommands(b + [last], skills)
  {
    KeptOfLonger(a + b, last, skills);
    KeptOfLonger(b, last, skills);
    Associate(KeptCommands(a, skills), KeptCommands(b, skills), Emitted(last, skills));
  }

  lemma TakenIsShadowed(rows: Rows, before: Rows, skills: bool, r: Row)
    requires forall q | q in before :: q in rows && !RowLeq(r, q)
    ensures Names(KeptCommands(before, skills), CommandName(r)) ==> Shadowed(rows, skills, r)
  {
    var commands := KeptCommands(before, skills);
    KeptCommandsAreKept(before, skills);
    if Names(commands, CommandName(r)) {
      var i :| 0 <= i < |commands| && commands[i].name == CommandName(r);
      assert commands[i] in commands;
      var q :| q in before && IsKept(q, skills) && ToCommand(q) == commands[i];
      assert CommandName(q) == CommandName(r);
    }
  }

  lemma WinsAfter(before: Rows, r: Row, after: Rows, skills: bool)
    requires IsKept(r, skills) && !Names(KeptCommands(before, skills), CommandName(r))
    ensures ToCommand(r) in FirstWins(KeptCommands((before + [r]) + after, skills))
  {
    var commands, c := KeptCommands(before, skills), ToCommand(r);
    KeptOfLonger(before, r, skills);
    KeptOfConcatenation(before + [r], after, skills);
    FirstWinsOfPrefix(commands + [c], KeptCommands(after, skills));
    assert (commands + [c])[..|commands|] == commands;
    assert FirstWins(commands + [c]) == FirstWins(commands) + [c];
    assert c in FirstWins(commands) + [c];
  }

  /** A row that comes first among those it ties with, and is not shadowed, wins its name. */
  lemma FrontWins(r: Row, rest: Rows, skills: bool)
    requires IsKept(r, skills) && !Shadowed([r] + rest, skills, r)
    ensures ToCommand(r) in Project([r] + rest, skills)
  {
    var sorted := StableSort(rest, RowOrder());
    var k := InsertSplits(r, sorted, RowOrder());
    assert ([r] + rest)[1..] == rest;
    SortedRowsAreRows(rest);
    forall q | q in sorted[..k]
      ensures q in [r] + rest && !RowLeq(r, q)
    {
      var j :| 0 <= j < k && sorted[j] == q;
      assert q in sorted;
    }
    TakenIsShadowed([r] + rest, sorted[..k], skills, r);
    WinsAfter(sorted[..k], r, sorted[k..], skills);
  }

  /** The rows with one of them, no extension, moved to the front. */
  function Front(rows: Rows, i: nat): Rows
    requires i < |rows|
  {
    [rows[i]] + (rows[..i] + rows[i + 1..])
  }

  lemma ExtensionsOfCons(r: Row, rows: Rows)
    ensures Extensions([r] + rows) == Extension(r) + Extensions(rows)
  {
    assert ([r] + rows)[1..] == rows;
  }

  lemma FirstApart(a: Rows, b: Rows)
    requires a != []
    ensures a == [a[0]] + a[1..] && a + b == [a[0]] + (a[1..] + b)
  {
  }

  lemma {:induction false} ExtensionsOfConcatenation(a: Rows, b: Rows)
    ensures Extensions(a + b) == Extensions(a) + Extensions(b)
  {
    if a == [] {
      assert a + b == b;
    } else {
      ExtensionsOfConcatenation(a[1..], b);
      ExtensionsOfBothLonger(a[0], a[1..], b);
      FirstApart(a, b);
    }
  }

  lemma ExtensionsOfBothLonger(r: Row, a: Rows, b: Rows)
    requires Extensions(a + b) == Extensions(a) + Extensions(b)
    ensures Extensions([r] + (a + b)) == Extensions([r] + a) + Extensions(b)
  {
    ExtensionsOfCons(r, a + b);
    ExtensionsOfCons(r, a);
    Associate(Extension(r), Extensions(a), Extensions(b));
  }

  lemma Associate<T>(a: seq<T>, b: seq<T>, c: seq<T>)
    ensures (a + b) + c == a + (b + c)
  {
  }

  lemma FrontOfPieces(a: Rows, r: Row, b: Rows)
    requires GroupRank(r) != 0
    ensures multiset([r] + (a + b)) == multiset(a + ([r] + b))
    ensures Extensions([r] + (a + b)) == Extensions(a + ([r] + b))
  {
    ExtensionsOfCons(r, b);
    ExtensionsOfCons(r, a + b);
    assert [] + Extensions(b) == Extensions(b) && [] + Extensions(a + b) == Extensions(a + b);
    ExtensionsOfConcatenation(a, [r] + b);
    ExtensionsOfConcatenation(a, b);
  }

  lemma FrontIsPermuted(rows: Rows, i: nat)
    requires i < |rows| && GroupRank(rows[i]) != 0
    ensures multiset(Front(rows, i)) == multiset(rows) && Extensions(Front(rows, i)) == Extensions(rows)
  {
    assert rows == rows[..i] + ([rows[i]] + rows[i + 1..]);
    FrontOfPieces(rows[..i], rows[i], rows[i + 1..]);
  }

  lemma FrontAppears(rows: Rows, i: nat, skills: bool)
    requires i < |rows| && IsKept(rows[i], skills) && !Shadowed(rows, skills, rows[i])
    ensures ToCommand(rows[i]) in Project(Front(rows, i), skills)
  {
    var rest := rows[..i] + rows[i + 1..];
    assert forall q | q in Front(rows, i) :: q in rows;
    FrontWins(rows[i], rest, skills);
  }

  lemma NoTwoOfOneName(commands: seq<Command>, c: Command, d: Command)
    requires UniqueNames(commands) && c in commands && d in commands && c.name == d.name
    ensures c == d
  {
    var i :| 0 <= i < |commands| && commands[i] == c;
    var j :| 0 <= j < |commands| && commands[j] == d;
  }

  lemma ShadowedTogether(rows: Rows, skills: bool, r: Row, q: Row)
    requires SameRank(r, q, RowOrder()) && CommandName(r) == CommandName(q)
    ensures Shadowed(rows, skills, q) ==> Shadowed(rows, skills, r)
  {
    RowOrderIsTotal();
    if Shadowed(rows, skills, q) {
      var p :| p in rows && IsKept(p, skills) && CommandName(p) == CommandName(q) && !RowLeq(q, p);
      assert RowOrder()(q, r) && (RowOrder()(r, p) ==> RowOrder()(q, p));
    }
  }

  /** Two rows that tie, give two commands and are not shadowed: which one wins is up to the order. */
  lemma OrderDecides(rows: Rows, skills: bool, i: nat, j: nat)
    requires i < |rows| && j < |rows| && GroupRank(rows[i]) != 0 && SameRank(rows[i], rows[j], RowOrder())
    requires IsKept(rows[i], skills) && ToCommand(rows[i]) != ToCommand(rows[j]) && !Shadowed(rows, skills, rows[i])
    ensures Project(Front(rows, i), skills) != Project(Front(rows, j), skills)
  {
    var r, q := rows[i], rows[j];
    TiedRowsName(r, q, skills);
    ShadowedTogether(rows, skills, r, q);
    FrontAppears(rows, i, skills);
    FrontAppears(rows, j, skills);
    ProjectionIsAdvertisable(Front(rows, i), skills);
    if Project(Front(rows, i), skills) == Project(Front(rows, j), skills) {
      NoTwoOfOneName(Project(Front(rows, i), skills), ToCommand(r), ToCommand(q));
    }
  }

  /** Every order of the rows that keeps that of the extensions gives one list. */
  ghost predicate AllOrdersAgree(rows: Rows, skills: bool) {
    forall b | multiset(b) == multiset(rows) && Extensions(b) == Extensions(rows) ::
      Project(b, skills) == Project(rows, skills)
  }

  /** The exact condition, for every catalog. */
  lemma HashOrderDoesNotMatterIff(rows: Rows, skills: bool)
    ensures AllOrdersAgree(rows, skills) <==> OrderFree(rows, skills)
  {
    if OrderFree(rows, skills) {
      forall b | multiset(b) == multiset(rows) && Extensions(b) == Extensions(rows)
        ensures Project(b, skills) == Project(rows, skills)
      {
        ProjectionIgnoresHashOrder(rows, b, skills);
      }
    } else {
      var r, q :| r in rows && q in rows && GroupRank(r) != 0 && SameRank(r, q, RowOrder()) && IsKept(r, skills)
                  && ToCommand(r) != ToCommand(q) && !Shadowed(rows, skills, r);
      var i: nat :| i < |rows| && rows[i] == r;
      var j: nat :| j < |rows| && rows[j] == q;
      RowsTieIff(r, q);
      OrderDecides(rows, skills, i, j);
      FrontIsPermuted(rows, i);
      FrontIsPermuted(rows, j);
    }
  }
}
