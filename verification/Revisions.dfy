/** One recorded revision per provider, whatever file of the provider's it is recorded for. */
module Revisions {
  import opened Wrappers

  const CLASSIFIER_CATALOG_SUFFIX := "-classifiers"

  datatype RevisionEntry = RevisionEntry(file: string, revision: Option<string>, skipped: Option<string>)

  /** `strip_suffix`, or the name itself. */
  function ProviderOf(file: string): string {
    var n := |CLASSIFIER_CATALOG_SUFFIX|;
    if n <= |file| && file[|file| - n..] == CLASSIFIER_CATALOG_SUFFIX then file[..|file| - n] else file
  }

  datatype Remedy = RunAgain | NameBoth(a: string, b: string) | FetchBoth(carried: string, why: string)

  datatype Refusal = Refusal(provider: string, a: RevisionEntry, b: RevisionEntry, remedy: Remedy)

  function RemedyFor(a: RevisionEntry, b: RevisionEntry): Remedy {
    if a.skipped.None? && b.skipped.None? then RunAgain
    else
      var why := if a.skipped.Some? then a.skipped.value else b.skipped.value;
      if why == "not named by --only" then NameBoth(a.file, b.file)
      else FetchBoth(if a.skipped.Some? then a.file else b.file, why)
  }

  /** Two recorded revisions of one provider that differ. */
  predicate Conflict(a: RevisionEntry, b: RevisionEntry) {
    a.revision.Some? && b.revision.Some? && ProviderOf(a.file) == ProviderOf(b.file) && a.revision != b.revision
  }

  /** Some assignment of revisions to providers agrees with every recorded revision. */
  ghost predicate Agrees(revisionOf: map<string, string>, entries: seq<RevisionEntry>) {
    forall i | 0 <= i < |entries| && entries[i].revision.Some? ::
      Maps(revisionOf, ProviderOf(entries[i].file), entries[i].revision.value)
  }

  predicate Maps(revisionOf: map<string, string>, provider: string, revision: string) {
    provider in revisionOf && revisionOf[provider] == revision
  }

  ghost predicate NoConflict(entries: seq<RevisionEntry>) {
    forall i, j | 0 <= i < j < |entries| :: !Conflict(entries[i], entries[j])
  }

  /** The assignment that the recorded revisions themselves give: the last recorded one. */
  function Recorded(entries: seq<RevisionEntry>): map<string, string> {
    if entries == [] then map[]
    else
      var last := entries[|entries| - 1];
      var before := Recorded(entries[..|entries| - 1]);
      if last.revision.Some? then before[ProviderOf(last.file) := last.revision.value] else before
  }

  lemma {:induction false} RecordedAgrees(entries: seq<RevisionEntry>)
    requires NoConflict(entries)
    ensures Agrees(Recorded(entries), entries)
  {
    if entries != [] {
      var last, before := entries[|entries| - 1], entries[..|entries| - 1];
      RecordedAgrees(before);
      forall i | 0 <= i < |entries| && entries[i].revision.Some?
        ensures Maps(Recorded(entries), ProviderOf(entries[i].file), entries[i].revision.value)
      {
        if i < |before| {
          assert Maps(Recorded(before), ProviderOf(before[i].file), before[i].revision.value);
          assert !Conflict(entries[i], last);
        }
      }
    }
  }

  /** Pairs are compared pairwise, yet what is decided is the existence of one assignment. */
  lemma NoConflictIffAssignment(entries: seq<RevisionEntry>)
    ensures NoConflict(entries) <==> exists revisionOf :: Agrees(revisionOf, entries)
  {
    if NoConflict(entries) {
      RecordedAgrees(entries);
    }
  }

  /** The pair `(i, j)` is refused and no earlier pair is. */
  ghost predicate FirstConflict(entries: seq<RevisionEntry>, i: nat, j: nat) {
    && i < j < |entries| && Conflict(entries[i], entries[j])
    && (forall m, n | 0 <= m < i && m < n < |entries| :: !Conflict(entries[m], entries[n]))
    && (forall n | i < n < j :: !Conflict(entries[i], entries[n]))
  }

  predicate IsClassifierFile(file: string) {
    |file| >= 12 && file[|file| - 12..] == "-classifiers"
  }

  /** The chat and the classifier file of one provider, or one file. */
  predicate SameProvider(f: string, g: string) {
    f == g || (f == g + "-classifiers" && !IsClassifierFile(g)) || (g == f + "-classifiers" && !IsClassifierFile(f))
  }

  lemma ClassifierFileIs(provider: string)
    ensures IsClassifierFile(provider + "-classifiers") && ProviderOf(provider + "-classifiers") == provider
  {
    var file := provider + "-classifiers";
    assert file[|file| - 12..] == "-classifiers" && file[..|file| - 12] == provider;
  }

  /** One suffix is stripped, and nothing else. */
  lemma ProviderOfFile(file: string)
    ensures IsClassifierFile(file) ==> file == ProviderOf(file) + "-classifiers"
    ensures !IsClassifierFile(file) ==> ProviderOf(file) == file
  {
    if IsClassifierFile(file) {
      assert file == file[..|file| - 12] + file[|file| - 12..];
    }
  }

  lemma SameProviderIff(f: string, g: string)
    ensures ProviderOf(f) == ProviderOf(g) <==> SameProvider(f, g)
  {
    ProviderOfFile(f);
    ProviderOfFile(g);
    ClassifierFileIs(f);
    ClassifierFileIs(g);
  }

  /** Two recorded revisions that differ, for one file or for the two files of a provider. */
  predicate Splits(a: RevisionEntry, b: RevisionEntry) {
    a.revision.Some? && b.revision.Some? && a.revision != b.revision && SameProvider(a.file, b.file)
  }

  lemma SplitsIff(entries: seq<RevisionEntry>)
    ensures NoConflict(entries) <==> forall i, j | 0 <= i < j < |entries| :: !Splits(entries[i], entries[j])
  {
    forall i, j | 0 <= i < j < |entries|
      ensures Conflict(entries[i], entries[j]) <==> Splits(entries[i], entries[j])
    {
      SameProviderIff(entries[i].file, entries[j].file);
    }
  }

  /** What the refusal tells to do: fetch again, name both files, or fetch both, and why one was not. */
  lemma RemedyIs(a: RevisionEntry, b: RevisionEntry)
    ensures RemedyFor(a, b).RunAgain? <==> a.skipped.None? && b.skipped.None?
    ensures RemedyFor(a, b).NameBoth?
            ==> RemedyFor(a, b) == NameBoth(a.file, b.file)
    ensures RemedyFor(a, b).NameBoth?
            <==> (if a.skipped.Some? then a.skipped else b.skipped) == Some("not named by --only")
    ensures a.skipped.Some? && a.skipped.value != "not named by --only"
            ==> RemedyFor(a, b) == FetchBoth(a.file, a.skipped.value)
    ensures a.skipped.None? && b.skipped.Some? && b.skipped.value != "not named by --only"
            ==> RemedyFor(a, b) == FetchBoth(b.file, b.skipped.value)
  {
  }

  /** `check_one_revision_per_provider`: refused exactly when no assignment exists. */
  method CheckOneRevisionPerProvider(entries: seq<RevisionEntry>) returns (r: Result<(), Refusal>)
    ensures r.Ok? <==> exists revisionOf :: Agrees(revisionOf, entries)
    ensures r.Ok? <==> forall i, j | 0 <= i < j < |entries| :: !Splits(entries[i], entries[j])
    ensures r.Err? ==> exists i: nat, j: nat :: FirstConflict(entries, i, j)
                                      && r.error == Refusal(ProviderOf(entries[i].file), entries[i], entries[j],
                                                            RemedyFor(entries[i], entries[j]))
  {
    NoConflictIffAssignment(entries);
    SplitsIff(entries);
    var i, j := FindConflict(entries);
    if i < |entries| {
      assert Conflict(entries[i], entries[j]);
      var a, b := entries[i], entries[j];
      return Err(Refusal(ProviderOf(a.file), a, b, RemedyFor(a, b)));
    }
    r := Ok(());
  }

  /** The two loops: the first pair that conflicts, or the length. */
  method FindConflict(entries: seq<RevisionEntry>) returns (i: nat, j: nat)
    ensures i < |entries| ==> FirstConflict(entries, i, j)
    ensures i >= |entries| ==> NoConflict(entries)
  {
    i, j := 0, 0;
    while i < |entries|
      invariant i <= |entries|
      invariant forall m, n | 0 <= m < i && m < n < |entries| :: !Conflict(entries[m], entries[n])
    {
      j := ConflictAfter(entries, i);
      if j < |entries| {
        return;
      }
      i := i + 1;
    }
  }

  /** The inner loop: the first later entry that conflicts with entry `i`, or the length. */
  method ConflictAfter(entries: seq<RevisionEntry>, i: nat) returns (j: nat)
    requires i < |entries|
    ensures i < j <= |entries| && (j < |entries| ==> Conflict(entries[i], entries[j]))
    ensures forall n | i < n < j :: !Conflict(entries[i], entries[n])
  {
    var a := entries[i];
    if a.revision.None? {
      return |entries|;
    }
    j := i + 1;
    while j < |entries|
      invariant i < j <= |entries|
      invariant forall n | i < n < j :: !Conflict(a, entries[n])
    {
      var b := entries[j];
      if b.revision.Some? && ProviderOf(a.file) == ProviderOf(b.file) && a.revision.value != b.revision.value {
        return;
      }
      j := j + 1;
    }
  }
}
