/**
 `prefix_overlap`: the longest end of what was sent that is also a start of the next snapshot,
 found by a failure table and one scan.
 */
module OverlapSearch {
  import opened Utf8

  /** The last `k` bytes of `emitted` are the first `k` bytes of `next`. */
  predicate Overlaps(emitted: Bytes, next: Bytes, k: nat) {
    k <= |emitted| && k <= |next| && emitted[|emitted| - k..] == next[..k]
  }

  ghost predicate IsLongest(emitted: Bytes, next: Bytes, k: nat) {
    Overlaps(emitted, next, k) && forall j: nat | Overlaps(emitted, next, j) :: j <= k
  }

  /** The largest overlap of at most `k` bytes, by trying every length. */
  function LongestUpTo(emitted: Bytes, next: Bytes, k: nat): (n: nat)
    ensures n <= k
  {
    if k == 0 || Overlaps(emitted, next, k) then k else LongestUpTo(emitted, next, k - 1)
  }

  /** The reference definition: the quadratic search that the table replaces. */
  function LongestOverlap(emitted: Bytes, next: Bytes): (n: nat)
    ensures n <= |next|
  {
    LongestUpTo(emitted, next, |next|)
  }

  lemma {:induction false} LongestUpToIsLongest(emitted: Bytes, next: Bytes, k: nat)
    ensures Overlaps(emitted, next, LongestUpTo(emitted, next, k))
    ensures forall j: nat | j <= k && Overlaps(emitted, next, j) :: j <= LongestUpTo(emitted, next, k)
  {
    if k == 0 {
      assert emitted[|emitted|..] == next[..0];
    } else if !Overlaps(emitted, next, k) {
      LongestUpToIsLongest(emitted, next, k - 1);
    }
  }

  /** The reference search returns the one longest overlap. */
  lemma LongestOverlapIsLongest(emitted: Bytes, next: Bytes)
    ensures IsLongest(emitted, next, LongestOverlap(emitted, next))
    ensures forall k: nat | IsLongest(emitted, next, k) :: k == LongestOverlap(emitted, next)
  {
    LongestUpToIsLongest(emitted, next, |next|);
  }

  /** One more byte of text extends an overlap by one, or leaves the empty one. */
  lemma ExtendOverlap(text: Bytes, pat: Bytes, c: Byte, k: nat)
    ensures Overlaps(text + [c], pat, k + 1) <==> Overlaps(text, pat, k) && k < |pat| && pat[k] == c
  {
    var longer := text + [c];
    if Overlaps(longer, pat, k + 1) {
      assert longer[|longer| - (k + 1)..][..k] == text[|text| - k..];
      assert pat[..k + 1][..k] == pat[..k];
      assert longer[|longer| - (k + 1)..][k] == c;
    }
    if Overlaps(text, pat, k) && k < |pat| && pat[k] == c {
      assert longer[|longer| - (k + 1)..] == text[|text| - k..] + [c];
      assert pat[..k + 1] == pat[..k] + [c];
    }
  }

  /** Falling back through the table loses no overlap: `f` is the next longest one after `len`. */
  lemma NextLongest(text: Bytes, pat: Bytes, len: nat, f: nat)
    requires 0 < len && Overlaps(text, pat, len)
    requires IsLongest(pat[1..len], pat, f)
    ensures f < len && Overlaps(text, pat, f)
    ensures forall j: nat | j < len && Overlaps(text, pat, j) :: j <= f
  {
    var end := text[|text| - len..];
    assert pat[1..len] == end[1..];
    forall j: nat | j < len
      ensures Overlaps(text, pat, j) <==> Overlaps(pat[1..len], pat, j)
    {
      assert end[1..][|end[1..]| - j..] == text[|text| - j..];
    }
  }

  /** `fail[j]` is the longest proper prefix of `pat[..j + 1]` that is also its suffix. */
  ghost predicate TableUpTo(fail: seq<nat>, pat: Bytes, n: nat) {
    n <= |fail| && n <= |pat| && forall j | 0 <= j < n :: IsLongest(pat[1..j + 1], pat, fail[j])
  }

  /** What is left when falling back stops is the longest overlap of the longer text. */
  lemma ExtendLongest(text: Bytes, pat: Bytes, c: Byte, len: nat)
    requires Overlaps(text, pat, len) && (len == 0 || (len < |pat| && pat[len] == c))
    requires forall j: nat | Overlaps(text, pat, j) && j < |pat| && pat[j] == c :: j <= len
    ensures IsLongest(text + [c], pat, if len < |pat| && pat[len] == c then len + 1 else len)
  {
    var longer := if len < |pat| && pat[len] == c then len + 1 else len;
    if longer > 0 {
      ExtendOverlap(text, pat, c, longer - 1);
    } else {
      assert (text + [c])[|text| + 1..] == pat[..0];
    }
    forall j: nat | Overlaps(text + [c], pat, j)
      ensures j <= longer
    {
      if j > 0 {
        ExtendOverlap(text, pat, c, j - 1);
      }
    }
  }

  /**
   The inner loop that both passes share: with `len` the longest overlap of `text`, fall back
   through the table until `c` extends one. `falls` counts the fall-backs.
   */
  method ExtendMatch(pat: Bytes, fail: array<nat>, ghost text: Bytes, start: nat, c: Byte)
    returns (len: nat, ghost falls: nat)
    requires IsLongest(text, pat, start) && TableUpTo(fail[..], pat, start)
    ensures IsLongest(text + [c], pat, len)
    ensures falls + len <= start + 1
  {
    len, falls := start, 0;
    while len > 0 && (len == |pat| || pat[len] != c)
      invariant len <= start && falls + len <= start
      invariant Overlaps(text, pat, len)
      invariant forall j: nat | Overlaps(text, pat, j) && j < |pat| && pat[j] == c :: j <= len
    {
      NextLongest(text, pat, len, fail[..][len - 1]);
      len, falls := fail[len - 1], falls + 1;
    }
    ExtendLongest(text, pat, c, len);
    if len < |pat| && pat[len] == c {
      len := len + 1;
    }
  }

  /** The first pass. `steps` counts the iterations of both of its loops. */
  method FailureTable(pat: Bytes) returns (fail: array<nat>, ghost steps: nat)
    requires pat != []
    ensures fresh(fail) && fail.Length == |pat| && TableUpTo(fail[..], pat, |pat|)
    ensures steps <= 2 * |pat|
  {
    var m := |pat|;
    fail := new nat[m](_ => 0);
    var len: nat := 0;
    steps := 0;
    assert pat[1..1] == [];
    assert IsLongest(pat[1..1], pat, 0);
    for i := 1 to m
      invariant len < i && IsLongest(pat[1..i], pat, len)
      invariant TableUpTo(fail[..], pat, i)
      invariant steps + len <= 2 * (i - 1)
    {
      ghost var falls: nat;
      len, falls := ExtendMatch(pat, fail, pat[1..i], len, pat[i]);
      assert pat[1..i] + [pat[i]] == pat[1..i + 1];
      ghost var before := fail[..];
      fail[i] := len;
      assert forall j | 0 <= j < i :: fail[..][j] == before[j];
      steps := steps + 1 + falls;
    }
  }

  /** The second pass. */
  method Scan(pat: Bytes, fail: array<nat>, hay: Bytes) returns (len: nat, ghost steps: nat)
    requires TableUpTo(fail[..], pat, |pat|)
    ensures IsLongest(hay, pat, len)
    ensures steps <= 2 * |hay|
  {
    len, steps := 0, 0;
    assert hay[..0] == [];
    for i := 0 to |hay|
      invariant IsLongest(hay[..i], pat, len)
      invariant steps + len <= 2 * i
    {
      ghost var falls: nat;
      len, falls := ExtendMatch(pat, fail, hay[..i], len, hay[i]);
      assert hay[..i] + [hay[i]] == hay[..i + 1];
      steps := steps + 1 + falls;
    }
    assert hay[..|hay|] == hay;
  }

  /** Only the last `|next|` bytes of what was sent can matter. */
  lemma ClippingLosesNothing(emitted: Bytes, next: Bytes, k: nat)
    requires |next| <= |emitted|
    ensures Overlaps(emitted, next, k) <==> Overlaps(emitted[|emitted| - |next|..], next, k)
  {
    if k <= |next| {
      assert emitted[|emitted| - |next|..][|next| - k..] == emitted[|emitted| - k..];
    }
  }

  /** The whole search: the longest overlap, in a number of steps linear in `next` alone. */
  method PrefixOverlap(emitted: Bytes, next: Bytes) returns (overlap: nat, ghost steps: nat)
    ensures IsLongest(emitted, next, overlap)
    ensures overlap == LongestOverlap(emitted, next)
    ensures steps <= 4 * |next|
  {
    LongestOverlapIsLongest(emitted, next);
    var m := |next|;
    if m == 0 || |emitted| == 0 {
      assert Overlaps(emitted, next, 0);
      return 0, 0;
    }
    var hay := if m <= |emitted| then emitted[|emitted| - m..] else emitted;
    var fail, first := FailureTable(next);
    ghost var second: nat;
    overlap, second := Scan(next, fail, hay);
    steps := first + second;
    if m <= |emitted| {
      forall k: nat ensures Overlaps(emitted, next, k) <==> Overlaps(hay, next, k) {
        ClippingLosesNothing(emitted, next, k);
      }
    }
  }

  /** Both ends of an overlap of two texts are character boundaries. */
  lemma OverlapIsCharBoundary(emitted: Bytes, next: Bytes, k: nat)
    requires Valid(emitted) && Valid(next) && Overlaps(emitted, next, k)
    ensures IsCharBoundary(emitted, |emitted| - k) && IsCharBoundary(next, k)
    ensures Valid(next[..k]) && Valid(next[k..])
  {
    if k > 0 {
      assert emitted[|emitted| - k] == emitted[|emitted| - k..][0] == next[..k][0];
      SuffixAtBoundary(emitted, |emitted| - k);
      RestAfterPrefix(next, k);
    } else {
      assert next[0..] == next;
    }
  }
}
