/**
 Lexical paths: a path is the list of its components, as `Path::components` reads them from text
 on Unix.
 */
module Paths {
  import opened Wrappers

  datatype Component = RootDir | CurDir | ParentDir | Normal(name: string)

  /** Two paths are equal, and one starts with another, by components. */
  type Path = seq<Component>

  // ------------------------------------------------------------------- text to components

  function Segments(s: string): (r: seq<string>)
    ensures |r| > 0
    ensures forall i | 0 <= i < |r| :: '/' !in r[i]
  {
    if s == [] then [""]
    else
      var rest := Segments(s[1..]);
      if s[0] == '/' then [""] + rest else [[s[0]] + rest[0]] + rest[1..]
  }

  /** Empty and `.` segments vanish, but for a `.` that leads a relative path. */
  function ComponentsOf(segments: seq<string>, leading: bool): Path {
    if segments == [] then []
    else
      var rest := ComponentsOf(segments[1..], false);
      if segments[0] == "" then rest
      else if segments[0] == "." then (if leading then [CurDir] + rest else rest)
      else if segments[0] == ".." then [ParentDir] + rest
      else [Normal(segments[0])] + rest
  }

  function Parse(s: string): Path {
    if "/" <= s then [RootDir] + ComponentsOf(Segments(s), false) else ComponentsOf(Segments(s), true)
  }

  predicate IsAbsolute(p: Path) {
    p != [] && p[0] == RootDir
  }

  /** What `components` guarantees: a root can only come first. */
  ghost predicate IsPath(p: Path) {
    forall i | 1 <= i < |p| :: p[i] != RootDir
  }

  /** An absolute path replaces the base; the leading `.` of a relative one is dropped inside. */
  function Join(base: Path, p: Path): Path {
    if IsAbsolute(p) || base == [] then p
    else if p != [] && p[0] == CurDir then base + p[1..]
    else base + p
  }

  // ------------------------------------------------------------------------ normalization

  /** One component onto the stack. */
  function Push(out: Path, c: Component): Path {
    match c
    case CurDir => out
    case ParentDir =>
      if out != [] && out[|out| - 1].Normal? then out[..|out| - 1]
      else if out != [] && out[|out| - 1].RootDir? then out
      else out + [c]
    case _ => out + [c]
  }

  function PushAll(out: Path, comps: Path): Path
    decreases comps
  {
    if comps == [] then out else PushAll(Push(out, comps[0]), comps[1..])
  }

  function Normalize(p: Path): Path {
    PushAll([], p)
  }

  /** `normalize`, run: a component stack filled in one loop. */
  method RunNormalize(path: Path) returns (out: Path)
    ensures out == Normalize(path)
  {
    out := [];
    for n := 0 to |path|
      invariant PushAll(out, path[n..]) == Normalize(path)
    {
      var c := path[n];
      assert path[n..][1..] == path[n + 1..];
      match c {
        case CurDir =>
        case ParentDir =>
          if out != [] && out[|out| - 1].Normal? {
            out := out[..|out| - 1];
          } else if out != [] && out[|out| - 1].RootDir? {
          } else {
            out := out + [c];
          }
        case _ => out := out + [c];
      }
    }
  }

  // -------------------------------------------------------------- walking a link-free tree

  /** A directory of a tree without links is the list of names that lead to it from the root. */
  type Location = seq<string>

  /** Following one component; the root is its own parent. */
  function Follow(at: Location, c: Component): Location {
    match c
    case RootDir => []
    case CurDir => at
    case ParentDir => if at == [] then [] else at[..|at| - 1]
    case Normal(name) => at + [name]
  }

  function Walk(at: Location, p: Path): Location
    decreases p
  {
    if p == [] then at else Walk(Follow(at, p[0]), p[1..])
  }

  /** The text of some segments, with a separator between them. */
  function Joined(segments: seq<string>): string
    requires segments != []
  {
    if |segments| == 1 then segments[0] else segments[0] + (['/'] + Joined(segments[1..]))
  }

  /** Splitting and joining are inverse. */
  lemma {:induction false} SegmentsJoin(s: string)
    ensures Joined(Segments(s)) == s
  {
    if s != [] {
      var rest := Segments(s[1..]);
      SegmentsJoin(s[1..]);
      assert s == [s[0]] + s[1..];
      if s[0] == '/' {
        assert ([""] + rest)[1..] == rest;
        assert "" + (['/'] + Joined(rest)) == ['/'] + s[1..];
      } else {
        var longer := [[s[0]] + rest[0]] + rest[1..];
        assert longer[1..] == rest[1..];
        assert |rest| > 1 ==> [s[0]] + (rest[0] + (['/'] + Joined(rest[1..]))) == ([s[0]] + rest[0]) + (['/'] + Joined(rest[1..]));
      }
    }
  }

  lemma {:induction false} JoinedSplits(segments: seq<string>)
    requires segments != [] && forall i | 0 <= i < |segments| :: '/' !in segments[i]
    ensures Segments(Joined(segments)) == segments
    decreases |segments|, |segments[0]|
  {
    var first := segments[0];
    if first != [] {
      var shorter := [first[1..]] + segments[1..];
      JoinedSplits(shorter);
      assert shorter[1..] == segments[1..];
      assert first == [first[0]] + first[1..];
      assert Joined(segments) == [first[0]] + Joined(shorter);
      assert Joined(segments)[1..] == Joined(shorter);
      assert [[first[0]] + shorter[0]] + shorter[1..] == segments;
    } else if |segments| > 1 {
      JoinedSplits(segments[1..]);
      assert Joined(segments) == ['/'] + Joined(segments[1..]);
      assert Joined(segments)[1..] == Joined(segments[1..]);
      assert [""] + segments[1..] == segments;
    } else {
      assert segments == [""];
    }
  }

  /** Following a text, segment by segment: nothing and `.` stay, `..` goes up, a name goes down. */
  function WalkSegments(at: Location, segments: seq<string>): Location
    decreases segments
  {
    if segments == [] then at
    else
      WalkSegments(
        if segments[0] == "" || segments[0] == "." then at
        else if segments[0] == ".." then (if at == [] then [] else at[..|at| - 1])
        else at + [segments[0]],
        segments[1..])
  }

  lemma {:induction false} ComponentsWalk(at: Location, segments: seq<string>, leading: bool)
    ensures Walk(at, ComponentsOf(segments, leading)) == WalkSegments(at, segments)
    decreases segments
  {
    if segments != [] {
      var rest := ComponentsOf(segments[1..], false);
      var s := segments[0];
      if s == "" || s == "." {
        ComponentsWalk(at, segments[1..], false);
        assert ([CurDir] + rest)[1..] == rest;
      } else if s == ".." {
        ComponentsWalk(Follow(at, ParentDir), segments[1..], false);
        assert ([ParentDir] + rest)[1..] == rest;
      } else {
        ComponentsWalk(at + [s], segments[1..], false);
        assert ([Normal(s)] + rest)[1..] == rest;
      }
    }
  }

  /** A text leads where its segments do, from the root when it starts with a separator. */
  lemma TextWalks(at: Location, s: string)
    ensures Walk(at, Parse(s)) == WalkSegments(if s != [] && s[0] == '/' then [] else at, Segments(s))
    ensures IsPath(Parse(s)) && (IsAbsolute(Parse(s)) <==> s != [] && s[0] == '/')
  {
    ComponentsHaveNoRoot(Segments(s), false);
    ComponentsHaveNoRoot(Segments(s), true);
    ComponentsWalk([], Segments(s), false);
    ComponentsWalk(at, Segments(s), true);
    assert ([RootDir] + ComponentsOf(Segments(s), false))[1..] == ComponentsOf(Segments(s), false);
  }

  /** The plain path of a location. */
  function PathOf(at: Location): Path {
    [RootDir] + seq(|at|, i requires 0 <= i < |at| => Normal(at[i]))
  }

  lemma PushFollows(at: Location, c: Component)
    requires c != RootDir
    ensures Push(PathOf(at), c) == PathOf(Follow(at, c))
  {
    if c.ParentDir? && at != [] {
      assert PathOf(at)[..|at|] == PathOf(at[..|at| - 1]);
    }
  }

  lemma {:induction false} PushAllWalks(at: Location, p: Path)
    requires forall i | 0 <= i < |p| :: p[i] != RootDir
    ensures PushAll(PathOf(at), p) == PathOf(Walk(at, p))
    decreases p
  {
    if p != [] {
      PushFollows(at, p[0]);
      PushAllWalks(Follow(at, p[0]), p[1..]);
    }
  }

  /** On absolute paths normalizing is walking, component by component. */
  lemma NormalizeWalks(p: Path)
    requires IsPath(p) && IsAbsolute(p)
    ensures Normalize(p) == PathOf(Walk([], p))
  {
    assert PathOf([]) == [RootDir] == Push([], RootDir);
    PushAllWalks([], p[1..]);
  }

  lemma PlainPathWalks(at: Location)
    ensures IsPath(PathOf(at)) && IsAbsolute(PathOf(at)) && Walk([], PathOf(at)) == at
  {
    assert PathOf(at)[1..] == seq(|at|, i requires 0 <= i < |at| => Normal(at[i]));
    NamesWalk([], at);
    assert [] + at == at;
  }

  lemma {:induction false} NamesWalk(from: Location, names: Location)
    ensures Walk(from, seq(|names|, i requires 0 <= i < |names| => Normal(names[i]))) == from + names
    decreases names
  {
    var p := seq(|names|, i requires 0 <= i < |names| => Normal(names[i]));
    if names == [] {
      assert from + names == from;
    } else {
      NamesWalk(from + [names[0]], names[1..]);
      assert p[1..] == seq(|names[1..]|, i requires 0 <= i < |names[1..]| => Normal(names[1..][i]));
      assert from + [names[0]] + names[1..] == from + names;
    }
  }

  lemma {:induction false} PushAllKeepsWalk(at: Location, out: Path, p: Path)
    ensures Walk(at, PushAll(out, p)) == Walk(Walk(at, out), p)
    decreases p
  {
    if p != [] {
      PushKeepsWalk(at, out, p[0]);
      PushAllKeepsWalk(at, Push(out, p[0]), p[1..]);
    }
  }

  lemma PushKeepsWalk(at: Location, out: Path, c: Component)
    ensures Walk(at, Push(out, c)) == Follow(Walk(at, out), c)
  {
    WalkOfConcatenation(at, out, [c]);
    assert Walk(Walk(at, out), [c]) == Follow(Walk(at, out), c);
    if out != [] {
      var n := |out| - 1;
      assert out == out[..n] + [out[n]];
      WalkOfConcatenation(at, out[..n], [out[n]]);
      assert Walk(Walk(at, out[..n]), [out[n]]) == Follow(Walk(at, out[..n]), out[n]);
    }
  }

  /** No `.`, no `..` but at the start of a relative path. */
  predicate IsNormalForm(p: Path) {
    && (forall i | 0 <= i < |p| :: p[i] != CurDir)
    && (forall i, j | 0 <= j <= i < |p| && p[i] == ParentDir :: p[j] == ParentDir)
  }

  lemma {:induction false} PushAllKeepsForm(out: Path, p: Path)
    requires IsNormalForm(out)
    ensures IsNormalForm(PushAll(out, p))
    decreases p
  {
    if p != [] {
      PushAllKeepsForm(Push(out, p[0]), p[1..]);
    }
  }

  /** Of any path, relative ones too: the normalized one is in normal form. */
  lemma NormalizeGivesForm(p: Path)
    ensures IsNormalForm(Normalize(p))
  {
    PushAllKeepsForm([], p);
  }

  /** Of any path, relative ones too, from anywhere: normalizing does not change where it leads. */
  lemma NormalizeKeepsWalk(at: Location, p: Path)
    ensures Walk(at, Normalize(p)) == Walk(at, p)
  {
    PushAllKeepsWalk(at, [], p);
  }

  /** A normalized absolute path has no `.` and no `..`, and normalizing it again changes nothing. */
  lemma NormalizeIsIdempotent(p: Path)
    requires IsPath(p) && IsAbsolute(p)
    ensures IsPath(Normalize(p)) && IsAbsolute(Normalize(p))
    ensures forall c | c in Normalize(p)[1..] :: c.Normal?
    ensures Normalize(Normalize(p)) == Normalize(p)
  {
    NormalizeWalks(p);
    PlainPathWalks(Walk([], p));
    NormalizeWalks(Normalize(p));
  }

  lemma {:induction false} WalkOfConcatenation(at: Location, p: Path, q: Path)
    ensures Walk(at, p + q) == Walk(Walk(at, p), q)
    decreases p
  {
    if p == [] {
      assert p + q == q;
    } else {
      WalkOfConcatenation(Follow(at, p[0]), p[1..], q);
      assert (p + q)[1..] == p[1..] + q;
    }
  }

  /** Joining a relative path to an absolute one walks on from where the first one led. */
  lemma JoinWalksOn(a: Path, b: Path)
    requires IsPath(a) && IsPath(b) && IsAbsolute(a) && !IsAbsolute(b)
    ensures IsPath(Join(a, b)) && IsAbsolute(Join(a, b))
    ensures Walk([], Join(a, b)) == Walk(Walk([], a), b)
  {
    WalkOfConcatenation([], a, b);
    if b != [] && b[0] == CurDir {
      WalkOfConcatenation([], a, b[1..]);
    }
  }

  /** Normalizing the base first makes no difference. */
  lemma NormalizeComposes(a: Path, b: Path)
    requires IsPath(a) && IsPath(b) && IsAbsolute(a) && !IsAbsolute(b)
    ensures Normalize(Join(a, b)) == Normalize(Join(Normalize(a), b))
    ensures Normalize(Join(a, b)) == PathOf(Walk(Walk([], a), b))
  {
    NormalizeWalks(a);
    PlainPathWalks(Walk([], a));
    JoinWalksOn(a, b);
    JoinWalksOn(Normalize(a), b);
    NormalizeWalks(Join(a, b));
    NormalizeWalks(Join(Normalize(a), b));
  }

  // ------------------------------------------------------------------ the checked paths

  datatype PathError = NotAbsolute | OutsideRoot | NotJsonl | Escaped

  /** `AbsCwd::resolve`. */
  function Resolve(cwd: Path, p: Path): Path {
    if IsAbsolute(p) then Normalize(p) else Normalize(Join(cwd, p))
  }

  /** Whatever a tool names, the resolved path is plain and absolute and leads where walking does. */
  lemma ResolveWalks(cwd: Path, p: Path)
    requires IsPath(cwd) && IsAbsolute(cwd) && IsPath(p)
    ensures Resolve(cwd, p) == PathOf(if IsAbsolute(p) then Walk([], p) else Walk(Walk([], cwd), p))
  {
    if IsAbsolute(p) {
      NormalizeWalks(p);
    } else {
      NormalizeComposes(cwd, p);
    }
  }

  function LastDot(name: string): Option<nat> {
    if name == [] then None
    else if name[|name| - 1] == '.' then Some(|name| - 1)
    else LastDot(name[..|name| - 1])
  }

  /** What follows the last dot of a file name; a name that only starts with a dot has none. */
  function ExtensionOf(name: string): Option<string> {
    match LastDot(name)
    case None => None
    case Some(i) => if i == 0 || i >= |name| then None else Some(name[i + 1..])
  }

  lemma {:induction false} LastDotIs(name: string)
    ensures LastDot(name).None? ==> '.' !in name
    ensures LastDot(name).Some?
            ==> LastDot(name).value < |name| && name[LastDot(name).value] == '.' && '.' !in name[LastDot(name).value + 1..]
  {
    if name != [] && name[|name| - 1] != '.' {
      LastDotIs(name[..|name| - 1]);
      assert name == name[..|name| - 1] + [name[|name| - 1]];
    }
  }

  lemma {:induction false} LastDotAfter(stem: string, extension: string)
    requires '.' !in extension
    ensures LastDot(stem + ("." + extension)) == Some(|stem|)
  {
    var name := stem + ("." + extension);
    if extension != [] {
      LastDotAfter(stem, extension[..|extension| - 1]);
      assert name[..|name| - 1] == stem + ("." + extension[..|extension| - 1]);
      assert name[|name| - 1] == extension[|extension| - 1];
    }
  }

  /** A name ends in an extension without a dot exactly when that, after a dot, follows some stem. */
  lemma ExtensionIs(name: string, extension: string)
    requires '.' !in extension
    ensures ExtensionOf(name) == Some(extension) <==> exists stem :: stem != "" && name == stem + ("." + extension)
  {
    LastDotIs(name);
    if ExtensionOf(name) == Some(extension) {
      var i := LastDot(name).value;
      assert name == name[..i] + ("." + extension);
    }
    if stem :| stem != "" && name == stem + ("." + extension) {
      LastDotAfter(stem, extension);
      assert name[|stem| + 1..] == extension;
    }
  }

  function Extension(p: Path): Option<string> {
    if p != [] && p[|p| - 1].Normal? then ExtensionOf(p[|p| - 1].name) else None
  }

  /** `SessionFile::resolve`. */
  method ResolveSessionFile(root: Path, candidate: Path) returns (r: Result<Path, PathError>)
    requires IsPath(root) && IsPath(candidate)
    ensures r == SessionFile(root, candidate)
    ensures r.Ok? <==> IsSessionFile(root, candidate)
    ensures r == Err(NotAbsolute) <==> !IsAbsolute(candidate)
    ensures r == Err(OutsideRoot) <==> IsAbsolute(candidate) && !Holds(root, Walk([], candidate))
    ensures r.Ok? ==> r.value == PathOf(Walk([], candidate))
  {
    AcceptedSessionFilesAreBelowRoot(root, candidate);
    if !IsAbsolute(candidate) {
      return Err(NotAbsolute);
    }
    var normalized := RunNormalize(candidate);
    var rootNormalized := RunNormalize(root);
    if !(rootNormalized <= normalized) {
      return Err(OutsideRoot);
    }
    if Extension(normalized) != Some("jsonl") {
      return Err(NotJsonl);
    }
    r := Ok(normalized);
  }

  function SessionFile(root: Path, candidate: Path): Result<Path, PathError> {
    if !IsAbsolute(candidate) then Err(NotAbsolute)
    else if !(Normalize(root) <= Normalize(candidate)) then Err(OutsideRoot)
    else if Extension(Normalize(candidate)) != Some("jsonl") then Err(NotJsonl)
    else Ok(Normalize(candidate))
  }

  lemma PathPrefixIff(a: Location, b: Location)
    ensures PathOf(a) <= PathOf(b) <==> a <= b
  {
    if PathOf(a) <= PathOf(b) {
      forall i | 0 <= i < |a|
        ensures a[i] == b[i]
      {
        assert PathOf(a)[i + 1] == PathOf(b)[i + 1];
      }
    }
  }

  lemma {:induction false} RelativeStaysRelative(out: Path, p: Path)
    requires RootDir !in out && RootDir !in p
    ensures RootDir !in PushAll(out, p)
    decreases p
  {
    if p != [] {
      RelativeStaysRelative(Push(out, p[0]), p[1..]);
    }
  }

  /**
   What a sessions root holds: an absolute one, every location at or below where it walks; a
   relative one, nothing, unless its components cancel out, and then everything.
   */
  predicate Holds(root: Path, at: Location) {
    if IsAbsolute(root) then Walk([], root) <= at else Normalize(root) == []
  }

  /**
   A candidate is accepted exactly when it is absolute and walking it leads to a location the root
   holds and ends on a `.jsonl` name; the accepted path is the plain path of that location.
   */
  lemma AcceptedSessionFilesAreBelowRoot(root: Path, candidate: Path)
    requires IsPath(root) && IsPath(candidate)
    ensures SessionFile(root, candidate).Ok? <==> IsSessionFile(root, candidate)
    ensures SessionFile(root, candidate) == Err(OutsideRoot)
            <==> IsAbsolute(candidate) && !Holds(root, Walk([], candidate))
    ensures SessionFile(root, candidate).Ok? ==> SessionFile(root, candidate).value == PathOf(Walk([], candidate))
  {
    if IsAbsolute(candidate) {
      NormalizeWalks(candidate);
      HoldsIffPrefix(root, Walk([], candidate));
    }
  }

  lemma HoldsIffPrefix(root: Path, at: Location)
    requires IsPath(root)
    ensures Normalize(root) <= PathOf(at) <==> Holds(root, at)
  {
    if IsAbsolute(root) {
      NormalizeWalks(root);
      PathPrefixIff(Walk([], root), at);
    } else {
      assert forall i | 0 <= i < |root| :: root[i] != RootDir;
      RelativeStaysRelative([], root);
      var normalized := Normalize(root);
      assert normalized != [] ==> normalized[0] in normalized && normalized[0] != PathOf(at)[0];
    }
  }

  /** The empty root is relative and holds every location: a file anywhere is accepted under it. */
  lemma EmptyRootHoldsAnyFile(directory: string, stem: string)
    requires stem != ""
    ensures SessionFile([], [RootDir, Normal(directory), Normal(stem + ".jsonl")]).Ok?
  {
    var at := [directory, stem + ".jsonl"];
    var candidate := [RootDir, Normal(directory), Normal(stem + ".jsonl")];
    assert candidate == PathOf(at);
    PlainPathWalks(at);
    SessionFileNames([], candidate);
    AcceptedSessionFilesAreBelowRoot([], candidate);
  }

  predicate IsSessionFile(root: Path, candidate: Path) {
    var at := Walk([], candidate);
    IsAbsolute(candidate) && Holds(root, at) && at != [] && ExtensionOf(at[|at| - 1]) == Some("jsonl")
  }

  /** The same of the last name as a text: something, and then `.jsonl`. */
  lemma SessionFileNames(root: Path, candidate: Path)
    ensures IsSessionFile(root, candidate)
            <==> var at := Walk([], candidate);
                 && IsAbsolute(candidate) && Holds(root, at) && at != []
                 && exists stem :: stem != "" && at[|at| - 1] == stem + ".jsonl"
  {
    var at := Walk([], candidate);
    if at != [] {
      ExtensionIs(at[|at| - 1], "jsonl");
      assert "." + "jsonl" == ".jsonl";
    }
  }

  // ------------------------------------------------------------------------- export paths

  predicate IsAlphanumeric(c: char) {
    '0' <= c <= '9' || 'a' <= c <= 'z' || 'A' <= c <= 'Z'
  }

  /** `validate_session_id`. */
  predicate ValidSessionId(id: string) {
    && id != [] && IsAlphanumeric(id[0]) && IsAlphanumeric(id[|id| - 1])
    && forall i | 0 <= i < |id| :: IsAlphanumeric(id[i]) || id[i] in {'.', '_', '-'}
  }

  function ExportName(id: string): string {
    "cyrup-session-" + id + ".html"
  }

  /** Where the export's name leads from the directory. */
  function Exported(id: string, dir: Path): Location {
    Walk(Walk([], dir), Parse(ExportName(id)))
  }

  /** `Path::parent`. */
  function Parent(p: Path): Option<Path> {
    if p == [] || p[|p| - 1].RootDir? then None else Some(p[..|p| - 1])
  }

  /** `AcpSessionId::export_path_in`. */
  method ExportPathIn(id: string, dir: Path) returns (r: Result<Path, PathError>)
    requires IsPath(dir)
    ensures r == ExportPath(id, dir)
    ensures r.Ok? <==> IsAbsolute(dir) && exists name :: Exported(id, dir) == Walk([], dir) + [name]
    ensures r.Ok? ==> r.value == PathOf(Exported(id, dir))
    ensures r.Err? ==> r.error == if IsAbsolute(dir) then Escaped else NotAbsolute
  {
    if IsAbsolute(dir) {
      ExportStaysInDirectory(id, dir);
    }
    if !IsAbsolute(dir) {
      return Err(NotAbsolute);
    }
    var base := RunNormalize(dir);
    var normalized := RunNormalize(Join(base, Parse(ExportName(id))));
    if Parent(normalized) != Some(base) {
      return Err(Escaped);
    }
    r := Ok(normalized);
  }

  function ExportPath(id: string, dir: Path): Result<Path, PathError> {
    if !IsAbsolute(dir) then Err(NotAbsolute)
    else
      var normalized := Normalize(Join(Normalize(dir), Parse(ExportName(id))));
      if Parent(normalized) != Some(Normalize(dir)) then Err(Escaped) else Ok(normalized)
  }

  lemma {:induction false} OneSegment(s: string)
    requires '/' !in s
    ensures Segments(s) == [s]
  {
    if s != [] {
      OneSegment(s[1..]);
      assert [s[0]] + s[1..] == s;
    }
  }

  lemma ExportNameIsOneComponent(id: string)
    requires '/' !in id
    ensures Parse(ExportName(id)) == [Normal(ExportName(id))]
  {
    assert ExportName(id)[0] == 'c';
    OneName(ExportName(id));
  }

  lemma OneName(name: string)
    requires '/' !in name && name !in {"", ".", ".."}
    ensures Parse(name) == [Normal(name)]
  {
    OneSegment(name);
    assert name[0] != '/';
    assert [name][1..] == [];
    assert ComponentsOf([name][1..], false) == [];
    assert ComponentsOf([name], true) == [Normal(name)];
  }

  /** Every id without a separator exports to a child of the directory, and no two ids to the same. */
  lemma ExportsAreOwnChildren(id: string, dir: Path)
    requires IsPath(dir) && IsAbsolute(dir) && '/' !in id
    ensures ExportPath(id, dir) == Ok(PathOf(Walk([], dir) + ["cyrup-session-" + id + ".html"]))
    ensures forall other | '/' !in other && ExportPath(other, dir) == ExportPath(id, dir) :: other == id
  {
    ExportIsChild(id, dir);
    forall other | '/' !in other && ExportPath(other, dir) == ExportPath(id, dir)
      ensures other == id
    {
      ExportIsChild(other, dir);
      var a, b := PathOf(Walk([], dir) + [ExportName(id)]), PathOf(Walk([], dir) + [ExportName(other)]);
      assert a[|a| - 1] == Normal(ExportName(id)) && b[|b| - 1] == Normal(ExportName(other));
      assert id == ExportName(id)[14..|ExportName(id)| - 5];
      assert other == ExportName(other)[14..|ExportName(other)| - 5];
    }
  }

  lemma ExportIsChild(id: string, dir: Path)
    requires IsPath(dir) && IsAbsolute(dir) && '/' !in id
    ensures ExportPath(id, dir) == Ok(PathOf(Walk([], dir) + [ExportName(id)]))
  {
    var at, name := Walk([], dir), ExportName(id);
    NormalizeWalks(dir);
    PlainPathWalks(at);
    ExportNameIsOneComponent(id);
    NormalizeComposes(PathOf(at), [Normal(name)]);
    assert Walk(at, [Normal(name)]) == at + [name];
    assert PathOf(at + [name])[..|at| + 1] == PathOf(at);
  }

  lemma {:induction false} ComponentsHaveNoRoot(segments: seq<string>, leading: bool)
    ensures RootDir !in ComponentsOf(segments, leading)
  {
    if segments != [] {
      ComponentsHaveNoRoot(segments[1..], false);
    }
  }

  lemma ParentIff(at: Location, loc: Location)
    ensures Parent(PathOf(loc)) == Some(PathOf(at)) <==> exists name :: loc == at + [name]
  {
    if loc != [] {
      var n := |loc| - 1;
      assert PathOf(loc)[..n + 1] == PathOf(loc[..n]);
      assert loc == loc[..n] + [loc[n]];
      PathPrefixIff(at, loc[..n]);
      PathPrefixIff(loc[..n], at);
      assert forall name :: at + [name] == loc ==> (at + [name])[..|at|] == at;
    }
  }

  /**
   The containment check on its own: whatever the id, separators and dots included, it is exported
   exactly when its name walks from the directory to a child of it, and then to that child.
   */
  lemma ExportStaysInDirectory(id: string, dir: Path)
    requires IsPath(dir) && IsAbsolute(dir)
    ensures ExportPath(id, dir).Ok? <==> exists name :: Exported(id, dir) == Walk([], dir) + [name]
    ensures ExportPath(id, dir).Ok? ==> ExportPath(id, dir).value == PathOf(Exported(id, dir))
  {
    var at, name := Walk([], dir), ExportName(id);
    assert name[0] == 'c';
    ComponentsHaveNoRoot(Segments(name), true);
    NormalizeWalks(dir);
    PlainPathWalks(at);
    NormalizeComposes(PathOf(at), Parse(name));
    ParentIff(at, Walk(at, Parse(name)));
  }

  /** A checked session id has no separator, so the containment check never refuses it. */
  lemma ValidIdsExport(id: string, dir: Path)
    requires ValidSessionId(id) && IsPath(dir)
    ensures ExportPath(id, dir).Ok? <==> IsAbsolute(dir)
  {
    if IsAbsolute(dir) {
      ExportsAreOwnChildren(id, dir);
    }
  }
}
