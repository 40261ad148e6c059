/**
 The append-only terminal delta: what one snapshot of a sliding preview window adds to the pane,
 and what whole runs of snapshots leave there.
 */
module Terminal {
  import opened Utf8
  import opened OverlapSearch

  const MIN_RESYNC_OVERLAP: nat := 32

  datatype Push = Nothing | Append(data: Bytes) | Resync(data: Bytes) | Desynced {
    /** The bytes that reach the pane. */
    function Emitted(): Bytes {
      if Append? || Resync? then data else []
    }
  }

  /** The decision `push` takes, with the overlap given by its reference definition. */
  function PushOf(emitted: Bytes, next: Bytes): Push {
    if next == emitted then Nothing
    else if emitted <= next then Append(next[|emitted|..])
    else
      var overlap := LongestOverlap(emitted, next);
      if overlap < MIN_RESYNC_OVERLAP || !IsCharBoundary(next, overlap) then Desynced
      else if next[overlap..] == [] then Nothing
      else Resync(next[overlap..])
  }

  class TerminalAppender {
    var emitted: Bytes

    constructor ()
      ensures emitted == []
    {
      emitted := [];
    }

    method Push(next: Bytes) returns (r: Push)
      modifies this
      ensures r == PushOf(old(emitted), next)
      ensures emitted == next
    {
      if next == emitted {
        return Nothing;
      }
      if emitted <= next {
        var suffix := next[|emitted|..];
        emitted := next;
        return Append(suffix);
      }
      var overlap, _ := PrefixOverlap(emitted, next);
      var usable := overlap >= MIN_RESYNC_OVERLAP && IsCharBoundary(next, overlap);
      emitted := next;
      if usable {
        if next[overlap..] == [] {
          return Nothing;
        }
        return Resync(next[overlap..]);
      }
      return Desynced;
    }
  }

  // ---------------------------------------------------------------------------- one push

  ghost predicate EndsWith(s: Bytes, t: Bytes) {
    |t| <= |s| && s[|s| - |t|..] == t
  }

  /** A snapshot that merely grew overlaps by all that was sent. */
  lemma PrefixIsLongestOverlap(emitted: Bytes, next: Bytes)
    requires emitted <= next
    ensures LongestOverlap(emitted, next) == |emitted|
  {
    LongestOverlapIsLongest(emitted, next);
    assert emitted[0..] == next[..|emitted|];
    assert Overlaps(emitted, next, |emitted|);
  }

  /** Every push that does not desync emits exactly what lies past the longest overlap. */
  lemma PushEmitsPastLongestOverlap(emitted: Bytes, next: Bytes)
    ensures LongestOverlap(emitted, next) <= |next|
    ensures !PushOf(emitted, next).Desynced?
            ==> PushOf(emitted, next).Emitted() == next[LongestOverlap(emitted, next)..]
  {
    LongestOverlapIsLongest(emitted, next);
    if emitted <= next {
      PrefixIsLongestOverlap(emitted, next);
    }
  }

  /**
   Which push it is, on text: an extension appends, a slide of at least 32 bytes resyncs, what was
   all sent already is nothing, and the rest desyncs.
   */
  lemma PushKinds(emitted: Bytes, next: Bytes)
    requires Valid(emitted) && Valid(next)
    ensures PushOf(emitted, next).Append? <==> emitted <= next && emitted != next
    ensures PushOf(emitted, next).Resync?
            <==> !(emitted <= next) && 32 <= LongestOverlap(emitted, next) < |next|
    ensures PushOf(emitted, next).Nothing?
            <==> emitted == next || (!(emitted <= next) && 32 <= LongestOverlap(emitted, next) == |next|)
    ensures PushOf(emitted, next).Desynced?
            <==> !(emitted <= next) && LongestOverlap(emitted, next) < 32
    ensures PushOf(emitted, next).Append? || PushOf(emitted, next).Resync?
            ==> PushOf(emitted, next).data == next[LongestOverlap(emitted, next)..]
  {
    DesyncedIffOverlapTooShort(emitted, next);
    PushEmitsPastLongestOverlap(emitted, next);
  }

  /**
   On text, the slice past the overlap never fails and never splits a character: a push desyncs
   exactly when the snapshot is no extension and the overlap is below the minimum.
   */
  lemma DesyncedIffOverlapTooShort(emitted: Bytes, next: Bytes)
    requires Valid(emitted) && Valid(next)
    ensures PushOf(emitted, next).Desynced?
            <==> !(emitted <= next) && LongestOverlap(emitted, next) < MIN_RESYNC_OVERLAP
    ensures Valid(PushOf(emitted, next).Emitted())
  {
    LongestOverlapIsLongest(emitted, next);
    var k := LongestOverlap(emitted, next);
    OverlapIsCharBoundary(emitted, next, k);
    PushEmitsPastLongestOverlap(emitted, next);
  }

  /**
   After a push that does not desync, the pane ends with the snapshot exactly when it held the
   part of the snapshot that was not sent again.
   */
  lemma PaneEndsWithSnapshotIff(pane: Bytes, emitted: Bytes, next: Bytes)
    requires !PushOf(emitted, next).Desynced?
    ensures LongestOverlap(emitted, next) <= |next|
    ensures EndsWith(pane + PushOf(emitted, next).Emitted(), next)
            <==> EndsWith(pane, next[..LongestOverlap(emitted, next)])
  {
    PushEmitsPastLongestOverlap(emitted, next);
    EndsWithSplit(pane, next, LongestOverlap(emitted, next));
  }

  lemma EndsWithSplit(pane: Bytes, next: Bytes, k: nat)
    requires k <= |next|
    ensures EndsWith(pane + next[k..], next) <==> EndsWith(pane, next[..k])
  {
    if k <= |pane| {
      var longer := pane + next[k..];
      var end := longer[|longer| - |next|..];
      assert end == pane[|pane| - k..] + next[k..];
      assert end[..k] == pane[|pane| - k..];
      assert next == next[..k] + next[k..];
    }
  }

  /** One step of the pane invariant: no hypothesis on the snapshots but that this push is in sync. */
  lemma PaneKeepsSnapshot(pane: Bytes, emitted: Bytes, next: Bytes)
    requires EndsWith(pane, emitted) && !PushOf(emitted, next).Desynced?
    ensures EndsWith(pane + PushOf(emitted, next).Emitted(), next)
  {
    PushEmitsPastLongestOverlap(emitted, next);
    LongestOverlapIsLongest(emitted, next);
    var k := LongestOverlap(emitted, next);
    assert pane[|pane| - k..] == pane[|pane| - |emitted|..][|emitted| - k..] == next[..k];
    PaneEndsWithSnapshotIff(pane, emitted, next);
  }

  // ------------------------------------------------------------------------ whole runs

  /** The last snapshot of a run: what `emitted` holds after it. */
  function Latest(snapshots: seq<Bytes>): Bytes {
    if snapshots == [] then [] else snapshots[|snapshots| - 1]
  }

  /** Everything a run of snapshots appends to the pane, in order. */
  function Pane(snapshots: seq<Bytes>): Bytes {
    if snapshots == [] then []
    else
      var before := snapshots[..|snapshots| - 1];
      Pane(before) + PushOf(Latest(before), Latest(snapshots)).Emitted()
  }

  ghost predicate InSync(snapshots: seq<Bytes>) {
    forall i | 0 <= i < |snapshots| :: PushInSync(snapshots, i)
  }

  ghost predicate PushInSync(snapshots: seq<Bytes>, i: nat)
    requires i < |snapshots|
  {
    !PushOf(Latest(snapshots[..i]), snapshots[i]).Desynced?
  }

  /** Over any snapshots at all: while no push has desynced, the pane ends with the latest one. */
  lemma {:induction false} PaneEndsWithLatest(snapshots: seq<Bytes>)
    requires InSync(snapshots)
    ensures EndsWith(Pane(snapshots), Latest(snapshots))
  {
    if snapshots != [] {
      var before := snapshots[..|snapshots| - 1];
      InSyncSplit(snapshots);
      PaneEndsWithLatest(before);
      PaneKeepsSnapshot(Pane(before), Latest(before), Latest(snapshots));
    }
  }

  lemma InSyncSplit(snapshots: seq<Bytes>)
    requires snapshots != []
    ensures InSync(snapshots)
            <==> InSync(snapshots[..|snapshots| - 1]) && PushInSync(snapshots, |snapshots| - 1)
  {
    var before := snapshots[..|snapshots| - 1];
    forall i | 0 <= i < |before|
      ensures PushInSync(before, i) <==> PushInSync(snapshots, i)
    {
      assert before[..i] == snapshots[..i];
    }
  }

  // ----------------------------------------------------------------- after a desync

  predicate LastDesyncs(snapshots: seq<Bytes>) {
    snapshots != [] && PushOf(Latest(snapshots[..|snapshots| - 1]), Latest(snapshots)).Desynced?
  }

  /** The snapshot the last desync re-based on; nothing while none desynced. */
  function Base(snapshots: seq<Bytes>): Bytes {
    if snapshots == [] then []
    else if LastDesyncs(snapshots) then Latest(snapshots)
    else Base(snapshots[..|snapshots| - 1])
  }

  /** The pane when the last desync happened. */
  function PaneAtBase(snapshots: seq<Bytes>): Bytes {
    if snapshots == [] then []
    else if LastDesyncs(snapshots) then Pane(snapshots[..|snapshots| - 1])
    else PaneAtBase(snapshots[..|snapshots| - 1])
  }

  /** What was emitted after the last desync. */
  function Since(snapshots: seq<Bytes>): Bytes {
    if snapshots == [] || LastDesyncs(snapshots) then []
    else
      var before := snapshots[..|snapshots| - 1];
      Since(before) + PushOf(Latest(before), Latest(snapshots)).Emitted()
  }

  /** A desync re-bases and does not latch: from its snapshot on, the emissions keep up. */
  lemma {:induction false} BaseKeepsUp(snapshots: seq<Bytes>)
    ensures Pane(snapshots) == PaneAtBase(snapshots) + Since(snapshots)
    ensures EndsWith(Base(snapshots) + Since(snapshots), Latest(snapshots))
  {
    if snapshots != [] && !LastDesyncs(snapshots) {
      var before := snapshots[..|snapshots| - 1];
      BaseKeepsUp(before);
      PaneKeepsSnapshot(Base(before) + Since(before), Latest(before), Latest(snapshots));
      Regroup(Base(before), Since(before), PushOf(Latest(before), Latest(snapshots)).Emitted());
      Regroup(PaneAtBase(before), Since(before), PushOf(Latest(before), Latest(snapshots)).Emitted());
    } else {
      assert EndsWith(Base(snapshots) + [], Latest(snapshots));
    }
  }

  lemma Regroup(a: Bytes, b: Bytes, c: Bytes)
    ensures (a + b) + c == a + (b + c)
  {
  }

  /** The part of the last desynced snapshot that the latest one still holds. */
  function StillShown(snapshots: seq<Bytes>): Bytes {
    LastBytes(Base(snapshots), |Latest(snapshots)| - |Since(snapshots)|)
  }

  function LastBytes(s: Bytes, n: int): Bytes {
    if 0 <= n <= |s| then s[|s| - n..] else []
  }

  /**
   Over any snapshots at all, when the pane ends with the latest one: enough was emitted since the
   last desync to fill it, or the pane then ended with what it still holds of the lost snapshot.
   */
  lemma PaneRecoversIff(snapshots: seq<Bytes>)
    ensures EndsWith(Pane(snapshots), Latest(snapshots))
            <==> |Since(snapshots)| >= |Latest(snapshots)| || EndsWith(PaneAtBase(snapshots), StillShown(snapshots))
  {
    BaseKeepsUp(snapshots);
    SameEnding(PaneAtBase(snapshots), Base(snapshots), Since(snapshots), Latest(snapshots));
  }

  /** Two texts with a common tail: whether the one ends as the other does is settled before the tail. */
  lemma SameEnding(a: Bytes, b: Bytes, tail: Bytes, end: Bytes)
    requires EndsWith(b + tail, end)
    ensures EndsWith(a + tail, end) <==> |tail| >= |end| || EndsWith(a, LastBytes(b, |end| - |tail|))
  {
    if |tail| >= |end| {
      EndsInTail(b, tail, |end|);
      EndsInTail(a, tail, |end|);
    } else {
      var n := |end| - |tail|;
      EndsBeforeTail(b, tail, n);
      var kept := b[|b| - n..];
      assert end == kept + tail;
      assert end[..n] == kept && end[n..] == tail;
      EndsWithSplit(a, end, n);
    }
  }

  lemma EndsInTail(a: Bytes, tail: Bytes, n: nat)
    requires n <= |tail|
    ensures (a + tail)[|a + tail| - n..] == tail[|tail| - n..]
  {
  }

  lemma EndsBeforeTail(a: Bytes, tail: Bytes, n: nat)
    requires n <= |a|
    ensures (a + tail)[|a + tail| - (n + |tail|)..] == a[|a| - n..] + tail
  {
  }

  lemma DesyncStartsOver(snapshots: seq<Bytes>, next: Bytes)
    requires PushOf(Latest(snapshots), next).Desynced?
    ensures var longer := snapshots + [next];
            Base(longer) == next && PaneAtBase(longer) == Pane(snapshots) && Since(longer) == []
  {
    assert (snapshots + [next])[..|snapshots|] == snapshots;
  }

  lemma RepeatChangesNothing(snapshots: seq<Bytes>)
    ensures var longer := snapshots + [Latest(snapshots)];
            && !LastDesyncs(longer) && Latest(longer) == Latest(snapshots)
            && Base(longer) == Base(snapshots) && PaneAtBase(longer) == PaneAtBase(snapshots)
            && Since(longer) == Since(snapshots)
  {
    assert (snapshots + [Latest(snapshots)])[..|snapshots|] == snapshots;
  }

  /** A snapshot that desyncs and then comes again is still lost, unless the pane held it before. */
  lemma RepeatOfDesync(snapshots: seq<Bytes>, next: Bytes)
    requires PushOf(Latest(snapshots), next).Desynced?
    ensures var longer := (snapshots + [next]) + [next];
            && !LastDesyncs(longer) && Since(longer) == []
            && PaneAtBase(longer) == Pane(snapshots) && StillShown(longer) == next
  {
    DesyncStartsOver(snapshots, next);
    RepeatChangesNothing(snapshots + [next]);
  }

  // --------------------------------------------------------------------- windows of one output

  /** One preview: the bytes from `start` to `end` of the command's output. */
  datatype Window = Window(start: nat, end: nat)

  /** `w` moves neither end of the window back. It may skip output. */
  predicate Advances(last: Window, w: Window) {
    last.start <= w.start && last.end <= w.end
  }

  /** `w` also starts where the last window did or overlaps it by the minimum. */
  predicate Slides(last: Window, w: Window) {
    Advances(last, w) && (w.start == last.start || w.start + MIN_RESYNC_OVERLAP <= last.end)
  }

  /** The windows of one command whose whole output is `output`. */
  ghost predicate Advancing(output: Bytes, windows: seq<Window>) {
    && (forall i | 0 <= i < |windows| :: windows[i].start <= windows[i].end <= |output|)
    && (forall i | 1 <= i < |windows| :: Advances(windows[i - 1], windows[i]))
  }

  /** The same, when each preview is text and none skips output. */
  ghost predicate Schedule(output: Bytes, windows: seq<Window>) {
    && Advancing(output, windows)
    && (forall i | 0 <= i < |windows| :: Valid(Preview(output, windows[i])))
    && (forall i | 1 <= i < |windows| :: Slides(windows[i - 1], windows[i]))
  }

  function Preview(output: Bytes, w: Window): Bytes {
    if w.start <= w.end <= |output| then output[w.start..w.end] else []
  }

  function Previews(output: Bytes, windows: seq<Window>): seq<Bytes> {
    seq(|windows|, i requires 0 <= i < |windows| => Preview(output, windows[i]))
  }

  /** The output produced when the last window was taken. */
  function Produced(output: Bytes, windows: seq<Window>): Bytes {
    if windows == [] || Last(windows).end > |output| then [] else output[..Last(windows).end]
  }

  function Last(windows: seq<Window>): Window
    requires windows != []
  {
    windows[|windows| - 1]
  }

  /** A slide leaves the bytes both windows hold as an overlap, and never desyncs. */
  lemma SlideOverlaps(output: Bytes, last: Window, w: Window)
    requires last.start <= last.end && w.start <= w.end <= |output| && Slides(last, w)
    requires Valid(Preview(output, last)) && Valid(Preview(output, w))
    ensures Overlaps(Preview(output, last), Preview(output, w), last.end - w.start)
    ensures last.end - w.start <= LongestOverlap(Preview(output, last), Preview(output, w)) <= w.end - w.start
    ensures !PushOf(Preview(output, last), Preview(output, w)).Desynced?
  {
    var e, n := Preview(output, last), Preview(output, w);
    SharedBytesOverlap(output, last, w);
    LongestOverlapIsLongest(e, n);
    DesyncedIffOverlapTooShort(e, n);
    assert w.start == last.start ==> e <= n;
  }

  lemma SharedBytesOverlap(output: Bytes, last: Window, w: Window)
    requires last.start <= w.start <= last.end <= w.end <= |output|
    ensures Overlaps(output[last.start..last.end], output[w.start..w.end], last.end - w.start)
    ensures w.start == last.start ==> output[last.start..last.end] <= output[w.start..w.end]
  {
    var e, n := output[last.start..last.end], output[w.start..w.end];
    var k := last.end - w.start;
    assert e[|e| - k..] == output[w.start..last.end] == n[..k];
  }

  lemma SliceOfSlice(s: Bytes, from: nat, to: nat, i: nat, j: nat)
    requires from <= to <= |s| && i <= j <= to - from
    ensures s[from..to][i..j] == s[from + i..from + j]
  {
    var slice := s[from..to][i..j];
    assert forall k | 0 <= k < |slice| :: slice[k] == s[from + i..from + j][k];
  }

  /**
   No repetition, whatever the content and however much was skipped: what a window emits is the
   end of the bytes produced since the last one, so no byte that was sent is sent again.
   */
  lemma AdvanceEmitsNewBytesOnly(output: Bytes, last: Window, w: Window)
    requires last.start <= last.end && w.start <= w.end <= |output| && Advances(last, w)
    ensures EndsWith(output[last.end..w.end], PushOf(Preview(output, last), Preview(output, w)).Emitted())
  {
    var e, n := Preview(output, last), Preview(output, w);
    LongestOverlapIsLongest(e, n);
    PushEmitsPastLongestOverlap(e, n);
    if w.start <= last.end {
      SharedBytesOverlap(output, last, w);
    }
    if !PushOf(e, n).Desynced? {
      PastOverlapIsNew(output, last.end, w, LongestOverlap(e, n));
    }
  }

  lemma PastOverlapIsNew(output: Bytes, sent: nat, w: Window, k: nat)
    requires w.start <= w.end <= |output| && sent <= w.start + k <= w.end
    ensures EndsWith(output[sent..w.end], Preview(output, w)[k..])
  {
    SliceOfSlice(output, w.start, w.end, k, w.end - w.start);
    SliceOfSlice(output, sent, w.end, w.start + k - sent, w.end - sent);
  }

  /** A slide never desyncs and emits new bytes only. */
  lemma SlideEmitsNewBytesOnly(output: Bytes, last: Window, w: Window)
    requires last.start <= last.end && w.start <= w.end <= |output| && Slides(last, w)
    requires Valid(Preview(output, last)) && Valid(Preview(output, w))
    ensures !PushOf(Preview(output, last), Preview(output, w)).Desynced?
    ensures EndsWith(output[last.end..w.end], PushOf(Preview(output, last), Preview(output, w)).Emitted())
  {
    SlideOverlaps(output, last, w);
    AdvanceEmitsNewBytesOnly(output, last, w);
  }

  /** A slide emits all the new bytes exactly when no overlap is longer than the true one. */
  lemma SlideExactIff(output: Bytes, last: Window, w: Window)
    requires last.start <= last.end && w.start <= w.end <= |output| && Slides(last, w)
    requires Valid(Preview(output, last)) && Valid(Preview(output, w))
    ensures PushOf(Preview(output, last), Preview(output, w)).Emitted() == output[last.end..w.end]
            <==> LongestOverlap(Preview(output, last), Preview(output, w)) == last.end - w.start
  {
    var e, n := Preview(output, last), Preview(output, w);
    SlideOverlaps(output, last, w);
    PushEmitsPastLongestOverlap(e, n);
    PastOverlapIsAllIff(output, last.end, w, LongestOverlap(e, n));
  }

  lemma PastOverlapIsAllIff(output: Bytes, sent: nat, w: Window, k: nat)
    requires w.start <= sent <= w.end <= |output| && w.start + k <= w.end
    ensures Preview(output, w)[k..] == output[sent..w.end] <==> w.start + k == sent
  {
    SliceOfSlice(output, w.start, w.end, k, w.end - w.start);
  }

  lemma PreviewsSplit(output: Bytes, windows: seq<Window>)
    requires windows != []
    ensures Previews(output, windows)[..|windows| - 1] == Previews(output, windows[..|windows| - 1])
    ensures Latest(Previews(output, windows)) == Preview(output, Last(windows))
  {
  }

  /** `positions` are strictly increasing indices into `output`, all below `bound`. */
  ghost predicate Increasing(positions: seq<nat>, bound: nat) {
    && (forall i | 0 <= i < |positions| :: positions[i] < bound)
    && (forall i, j | 0 <= i < j < |positions| :: positions[i] < positions[j])
  }

  ghost predicate ReadsOff(output: Bytes, positions: seq<nat>, pane: Bytes) {
    && |positions| == |pane|
    && forall i | 0 <= i < |pane| :: positions[i] < |output| && pane[i] == output[positions[i]]
  }

  /** Over a whole run of sliding windows no push desyncs. */
  lemma SlidingNeverDesyncs(output: Bytes, windows: seq<Window>)
    requires Schedule(output, windows)
    ensures InSync(Previews(output, windows))
  {
    var all := Previews(output, windows);
    forall i | 0 <= i < |all|
      ensures PushInSync(all, i)
    {
      if i > 0 {
        assert Latest(all[..i]) == Preview(output, windows[i - 1]);
        SlideOverlaps(output, windows[i - 1], windows[i]);
      }
    }
  }

  /**
   Over a whole run of windows, whatever the output, skips and desyncs included: the pane is the
   output with bytes left out, but none repeated and none out of order.
   */
  lemma {:induction false} PaneNeverRepeats(output: Bytes, windows: seq<Window>) returns (positions: seq<nat>)
    requires Advancing(output, windows)
    ensures Increasing(positions, |Produced(output, windows)|)
    ensures ReadsOff(output, positions, Pane(Previews(output, windows)))
  {
    if windows == [] {
      positions := [];
    } else {
      var before, end := windows[..|windows| - 1], Last(windows).end;
      var early := PaneNeverRepeats(output, before);
      var data := LastEmission(output, windows);
      positions := early + seq(|data|, i => end - |data| + i);
      ReadOffSuffix(output, early, Pane(Previews(output, before)), SentTo(windows), end, data);
    }
  }

  /** The last window of a run appends the end of the bytes produced since the one before. */
  lemma LastEmission(output: Bytes, windows: seq<Window>) returns (data: Bytes)
    requires Advancing(output, windows) && windows != []
    ensures SentTo(windows) == |Produced(output, windows[..|windows| - 1])| <= Last(windows).end <= |output|
    ensures EndsWith(output[SentTo(windows)..Last(windows).end], data)
    ensures Pane(Previews(output, windows)) == Pane(Previews(output, windows[..|windows| - 1])) + data
  {
    var before, w := windows[..|windows| - 1], Last(windows);
    PreviewsSplit(output, windows);
    if before == [] {
      data := Preview(output, w);
      FirstPaneIsPreview(Previews(output, windows), data);
      assert data == output[0..w.end][w.start..];
    } else {
      PreviewsSplit(output, before);
      data := PushOf(Preview(output, Last(before)), Preview(output, w)).Emitted();
      AdvanceEmitsNewBytesOnly(output, Last(before), w);
    }
  }

  /** The first snapshot is shown whole. */
  lemma FirstPaneIsPreview(snapshots: seq<Bytes>, first: Bytes)
    requires snapshots == [first]
    ensures Pane(snapshots) == [] + first
  {
    PrefixIsLongestOverlap([], first);
    PushEmitsPastLongestOverlap([], first);
  }

  lemma ReadOffSuffix(output: Bytes, early: seq<nat>, pane: Bytes, from: nat, end: nat, data: Bytes)
    requires from <= end <= |output| && EndsWith(output[from..end], data)
    requires Increasing(early, from) && ReadsOff(output, early, pane)
    ensures Increasing(early + seq(|data|, i => end - |data| + i), end)
    ensures ReadsOff(output, early + seq(|data|, i => end - |data| + i), pane + data)
  {
    var produced := output[from..end];
    assert forall i | 0 <= i < |data| :: data[i] == produced[|produced| - |data|..][i] == output[end - |data| + i];
  }

  /** Where the output stood before the last window. */
  function SentTo(windows: seq<Window>): nat {
    if |windows| <= 1 then 0 else windows[|windows| - 2].end
  }

  /** At every step the longest overlap is the one the slide left. */
  ghost predicate OverlapsAreTrue(output: Bytes, windows: seq<Window>) {
    |windows| >= 2 ==>
      var before := windows[..|windows| - 1];
      OverlapsAreTrue(output, before) && OverlapIsTrue(output, Last(before), Last(windows))
  }

  ghost predicate OverlapIsTrue(output: Bytes, last: Window, w: Window) {
    LongestOverlap(Preview(output, last), Preview(output, w)) == last.end - w.start
  }

  /** Every line once, none dropped, none repeated: after every push. */
  ghost predicate Exact(output: Bytes, windows: seq<Window>) {
    forall i | 0 <= i <= |windows| :: Pane(Previews(output, windows[..i])) == Produced(output, windows[..i])
  }

  /**
   Exactly when the pane is the output so far after every push: the first window starts where the
   output does, and no repetitive stretch of output makes an overlap longer than the slide left it.
   */
  lemma {:induction false} ExactIff(output: Bytes, windows: seq<Window>)
    requires Schedule(output, windows)
    ensures Exact(output, windows)
            <==> (windows != [] ==> windows[0].start == 0) && OverlapsAreTrue(output, windows)
  {
    if windows == [] {
    } else {
      var before := windows[..|windows| - 1];
      ExactIff(output, before);
      ExactSplit(output, windows);
      if before == [] {
        PreviewsSplit(output, windows);
        assert Previews(output, before) == [];
        var w := windows[0];
        assert |Pane(Previews(output, windows))| == w.end - w.start;
        assert output[..w.end] == output[0..w.end];
      } else {
        assert Exact(output, before) ==> before[..|before|] == before;
        ExactStep(output, windows);
      }
    }
  }

  lemma ExactSplit(output: Bytes, windows: seq<Window>)
    requires windows != []
    ensures Exact(output, windows)
            <==> Exact(output, windows[..|windows| - 1]) && Pane(Previews(output, windows)) == Produced(output, windows)
  {
    var before := windows[..|windows| - 1];
    assert windows[..|windows|] == windows;
    assert forall i | 0 <= i < |windows| :: before[..i] == windows[..i];
  }

  lemma ExactStep(output: Bytes, windows: seq<Window>)
    requires |windows| >= 2 && Schedule(output, windows)
    ensures Pane(Previews(output, windows[..|windows| - 1])) == Produced(output, windows[..|windows| - 1])
            ==> (Pane(Previews(output, windows)) == Produced(output, windows)
                 <==> OverlapIsTrue(output, Last(windows[..|windows| - 1]), Last(windows)))
  {
    var before := windows[..|windows| - 1];
    var last, w := Last(before), Last(windows);
    PreviewsSplit(output, windows);
    PreviewsSplit(output, before);
    SlideExactIff(output, last, w);
    var data := PushOf(Preview(output, last), Preview(output, w)).Emitted();
    assert output[..w.end] == output[..last.end] + output[last.end..w.end];
    if output[..last.end] + data == output[..w.end] {
      assert data == (output[..last.end] + data)[last.end..];
      assert output[last.end..w.end] == output[..w.end][last.end..];
    }
  }

  /** No block of the minimum length occurs twice. */
  ghost predicate NoBlockRepeats(output: Bytes) {
    forall i: nat, j: nat | i < j && j + MIN_RESYNC_OVERLAP <= |output| :: !SameBlock(output, i, j)
  }

  ghost predicate SameBlock(output: Bytes, i: nat, j: nat)
    requires i < j && j + MIN_RESYNC_OVERLAP <= |output|
  {
    output[i..i + MIN_RESYNC_OVERLAP] == output[j..j + MIN_RESYNC_OVERLAP]
  }

  /** Without a repeated block, a slide's longest overlap is the true one. */
  lemma UniqueBlocksGiveTrueOverlap(output: Bytes, last: Window, w: Window)
    requires last.start <= last.end && w.start <= w.end <= |output| && Slides(last, w)
    requires Valid(Preview(output, last)) && Valid(Preview(output, w))
    requires NoBlockRepeats(output)
    ensures LongestOverlap(Preview(output, last), Preview(output, w)) == last.end - w.start
  {
    var e, n := Preview(output, last), Preview(output, w);
    SlideOverlaps(output, last, w);
    LongestOverlapIsLongest(e, n);
    var k := LongestOverlap(e, n);
    if k > last.end - w.start && w.start != last.start {
      LongOverlapRepeatsBlock(output, last, w, k);
    }
  }

  lemma LongOverlapRepeatsBlock(output: Bytes, last: Window, w: Window, k: nat)
    requires last.start <= last.end && w.start <= w.end <= |output| && last.end <= w.end
    requires Overlaps(Preview(output, last), Preview(output, w), k)
    requires last.end - w.start < k && MIN_RESYNC_OVERLAP <= k
    ensures last.end - k < w.start && w.start + MIN_RESYNC_OVERLAP <= |output|
    ensures SameBlock(output, last.end - k, w.start)
  {
    var e, n := Preview(output, last), Preview(output, w);
    var i: nat := last.end - k;
    SliceOfSlice(output, last.start, last.end, |e| - k, |e|);
    SliceOfSlice(output, w.start, w.end, 0, k);
    assert e[|e| - k..] == n[..k];
    SliceOfSlice(output, i, last.end, 0, MIN_RESYNC_OVERLAP);
    SliceOfSlice(output, w.start, w.start + k, 0, MIN_RESYNC_OVERLAP);
  }

  /**
   The whole-command property: if no block of the minimum length occurs twice in the output, the
   pane is the output produced so far, after every push.
   */
  lemma UniqueBlocksMakeRunsExact(output: Bytes, windows: seq<Window>)
    requires Schedule(output, windows) && NoBlockRepeats(output)
    requires windows != [] ==> windows[0].start == 0
    ensures Exact(output, windows)
  {
    UniqueBlocksMakeOverlapsTrue(output, windows);
    ExactIff(output, windows);
  }

  lemma {:induction false} UniqueBlocksMakeOverlapsTrue(output: Bytes, windows: seq<Window>)
    requires Schedule(output, windows) && NoBlockRepeats(output)
    ensures OverlapsAreTrue(output, windows)
  {
    if |windows| >= 2 {
      var before := windows[..|windows| - 1];
      UniqueBlocksMakeOverlapsTrue(output, before);
      UniqueBlocksGiveTrueOverlap(output, Last(before), Last(windows));
    }
  }

  lemma {:induction false} AsciiIsValid(s: Bytes)
    requires forall i | 0 <= i < |s| :: s[i] < 0x80
    ensures Valid(s)
    decreases |s|
  {
    if s != [] {
      AsciiIsValid(s[1..]);
    }
  }

  /**
   The uniqueness hypothesis is needed: fifty equal bytes, seen first through the window 0..40 and
   then through 4..50, leave four bytes out of the pane.
   */
  lemma RepetitiveOutputDropsBytes()
    ensures var output := seq(50, _ => 10);
            var windows := [Window(0, 40), Window(4, 50)];
            Schedule(output, windows) && |Pane(Previews(output, windows))| == 46
  {
    var output: Bytes := seq(50, _ => 10);
    var windows := [Window(0, 40), Window(4, 50)];
    var e, n := output[0..40], output[4..50];
    AsciiIsValid(e);
    AsciiIsValid(n);
    assert Previews(output, windows) == [e, n];
    assert [e, n][..1] == [e];
    PushEmitsPastLongestOverlap([], e);
    PrefixIsLongestOverlap([], e);
    assert Pane([e]) == [] + e;
    assert e <= n;
    PushEmitsPastLongestOverlap(e, n);
    PrefixIsLongestOverlap(e, n);
    assert Pane([e, n]) == e + n[40..];
  }
}
