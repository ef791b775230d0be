/**
 * The version selector: the saved frames of a project listed newest first,
 * the caption of the current version, the label of each row, and the URL
 * that choosing a version navigates to.
 */
module Versions {
  import opened Wrappers
  import opened JsStrings
  import opened JsArrays

  /**
   * A saved frame. `createdOn` is the creation time as the milliseconds
   * `new Date(createdOn).getTime()` yields.
   */
  datatype Frame = Frame(frameId: string, name: Option<string>, designCode: Option<string>, createdOn: int)

  /** A JavaScript string that is set and not empty, i.e. truthy. */
  predicate Truthy(s: Option<string>) {
    s.Some? && s.value != ""
  }

  /** A completed version: one whose design code is truthy. */
  predicate Completed(f: Frame) {
    Truthy(f.designCode)
  }

  // ---------------------------------------------------------------------
  // The listed frames
  // ---------------------------------------------------------------------

  /** `frames.filter(f => f.designCode)`: each completed frame as often as it occurs, no other. */
  function CompletedFrames(frames: seq<Frame>): (r: seq<Frame>)
    ensures forall f :: multiset(r)[f] == if Completed(f) then multiset(frames)[f] else 0
    ensures Subsequence(r, frames)
  {
    Filter(frames, Completed)
  }

  /** Newest first. */
  predicate NewestFirst(fs: seq<Frame>) {
    forall i, j :: 0 <= i < j < |fs| ==> fs[i].createdOn >= fs[j].createdOn
  }

  /** Inserts f ahead of the first frame that is not newer than it. */
  function Insert(f: Frame, fs: seq<Frame>): (r: seq<Frame>)
    requires NewestFirst(fs)
    ensures NewestFirst(r)
    ensures |fs| > 0 ==> forall j :: 0 <= j < |r| ==> r[j].createdOn <= Later(f, fs[0]).createdOn
    ensures |r| == |fs| + 1
    ensures r[0] == f || (|fs| > 0 && r[0] == fs[0])
    decreases |fs|
  {
    if |fs| == 0 || fs[0].createdOn <= f.createdOn then [f] + fs
    else
      var rest := Insert(f, fs[1..]);
      assert fs == [fs[0]] + fs[1..];
      ConsNewestFirst(fs[0], rest);
      [fs[0]] + rest
  }

  /** Of two frames, the one created later (the first on a tie). */
  function Later(f: Frame, g: Frame): Frame {
    if f.createdOn >= g.createdOn then f else g
  }

  /** Inserting adds f and loses nothing. */
  lemma {:induction false} InsertPermutes(f: Frame, fs: seq<Frame>)
    requires NewestFirst(fs)
    ensures multiset(Insert(f, fs)) == multiset(fs) + multiset{f}
    decreases |fs|
  {
    if |fs| > 0 && fs[0].createdOn > f.createdOn {
      InsertPermutes(f, fs[1..]);
      assert fs == [fs[0]] + fs[1..];
    }
  }

  lemma ConsNewestFirst(x: Frame, fs: seq<Frame>)
    requires NewestFirst(fs) && forall j :: 0 <= j < |fs| ==> fs[j].createdOn <= x.createdOn
    ensures NewestFirst([x] + fs)
  {
  }

  /**
   * The stable sort by `b.createdOn - a.createdOn`: newest first, frames
   * created at the same instant in the order given.
   */
  function SortNewestFirst(fs: seq<Frame>): (r: seq<Frame>)
    ensures NewestFirst(r)
    ensures multiset(r) == multiset(fs)
    decreases |fs|
  {
    if |fs| == 0 then []
    else
      assert fs == [fs[0]] + fs[1..];
      InsertPermutes(fs[0], SortNewestFirst(fs[1..]));
      Insert(fs[0], SortNewestFirst(fs[1..]))
  }

  /** A list that is already newest first is left as it is; so sorting twice is sorting once. */
  lemma {:induction false} SortKeepsSorted(fs: seq<Frame>)
    requires NewestFirst(fs)
    ensures SortNewestFirst(fs) == fs
    decreases |fs|
  {
    if |fs| > 0 {
      assert NewestFirst(fs[1..]);
      SortKeepsSorted(fs[1..]);
      assert fs == [fs[0]] + fs[1..];
    }
  }

  /** The frames of fs created at instant t, in the order of fs. */
  function At(fs: seq<Frame>, t: int): (r: seq<Frame>)
    ensures forall f :: multiset(r)[f] == if f.createdOn == t then multiset(fs)[f] else 0
    ensures Subsequence(r, fs)
  {
    Filter(fs, (g: Frame) => g.createdOn == t)
  }

  /** Inserting f puts it ahead of the frames created at the same instant. */
  lemma {:induction false} InsertAt(f: Frame, fs: seq<Frame>, t: int)
    requires NewestFirst(fs)
    ensures At(Insert(f, fs), t) == if f.createdOn == t then [f] + At(fs, t) else At(fs, t)
    decreases |fs|
  {
    if |fs| == 0 || fs[0].createdOn <= f.createdOn {
      assert ([f] + fs)[1..] == fs;
    } else {
      var rest := Insert(f, fs[1..]);
      InsertAt(f, fs[1..], t);
      assert ([fs[0]] + rest)[1..] == rest;
    }
  }

  /**
   * The sort is stable: for every instant, the frames created then appear
   * in the sorted list in the order they were given.
   */
  lemma {:induction false} SortStable(fs: seq<Frame>, t: int)
    ensures At(SortNewestFirst(fs), t) == At(fs, t)
    decreases |fs|
  {
    if |fs| > 0 {
      SortStable(fs[1..], t);
      InsertAt(fs[0], SortNewestFirst(fs[1..]), t);
    }
  }

  /** The rows of the selector: the completed frames, newest first. */
  function SortedFrames(frames: seq<Frame>): seq<Frame> {
    SortNewestFirst(CompletedFrames(frames))
  }

  /** The rows are newest first, and are the completed frames, each as often as given. */
  lemma SortedFramesAreCompleted(frames: seq<Frame>)
    ensures NewestFirst(SortedFrames(frames))
    ensures forall f :: multiset(SortedFrames(frames))[f] == if Completed(f) then multiset(frames)[f] else 0
    ensures forall i :: 0 <= i < |SortedFrames(frames)| ==> Completed(SortedFrames(frames)[i])
  {
    var r := SortedFrames(frames);
    forall i | 0 <= i < |r| ensures Completed(r[i]) {
      assert r[i] in multiset(r);
    }
  }

  // ---------------------------------------------------------------------
  // Labels
  // ---------------------------------------------------------------------

  function VersionLabel(n: nat): string {
    "Version " + NatToString(n)
  }

  lemma VersionLabelInjective(a: nat, b: nat)
    requires VersionLabel(a) == VersionLabel(b)
    ensures a == b
  {
    var p := "Version ";
    assert NatToString(a) == VersionLabel(a)[|p|..];
    assert NatToString(b) == VersionLabel(b)[|p|..];
    NatToStringInjective(a, b);
  }

  lemma VersionLabelsDiffer(a: nat, b: nat)
    requires a != b
    ensures VersionLabel(a) != VersionLabel(b)
  {
    if VersionLabel(a) == VersionLabel(b) {
      VersionLabelInjective(a, b);
    }
  }

  /** Row `index` shows the frame's name, or "Version k" counting up from the oldest. */
  function RowLabel(sorted: seq<Frame>, index: nat): string
    requires index < |sorted|
  {
    if Truthy(sorted[index].name) then sorted[index].name.value else VersionLabel(|sorted| - index)
  }

  /** Unnamed rows never share a label: the newest is "Version n", the oldest "Version 1". */
  lemma UnnamedRowsDistinct(sorted: seq<Frame>, i: nat, j: nat)
    requires i < |sorted| && j < |sorted| && i != j
    requires !Truthy(sorted[i].name) && !Truthy(sorted[j].name)
    ensures RowLabel(sorted, i) != RowLabel(sorted, j)
    ensures RowLabel(sorted, i) == VersionLabel(|sorted| - i) && 1 <= |sorted| - i <= |sorted|
  {
    VersionLabelsDiffer(|sorted| - i, |sorted| - j);
  }

  /** `findIndex(f => f.frameId === id)`: -1 when no row has the id. */
  function FindIndex(sorted: seq<Frame>, id: Option<string>): (r: int)
    ensures -1 <= r < |sorted|
    ensures r >= 0 ==> Some(sorted[r].frameId) == id && forall k :: 0 <= k < r ==> Some(sorted[k].frameId) != id
    ensures r == -1 ==> forall k :: 0 <= k < |sorted| ==> Some(sorted[k].frameId) != id
    decreases |sorted|
  {
    if |sorted| == 0 then -1
    else if Some(sorted[0].frameId) == id then 0
    else
      var k := FindIndex(sorted[1..], id);
      if k < 0 then -1 else k + 1
  }

  /** The caption: the current frame's name, else "Version k", else "Select version". */
  function CurrentFrameName(sorted: seq<Frame>, currentFrameId: Option<string>): string {
    var k := FindIndex(sorted, currentFrameId);
    if k >= 0 && Truthy(sorted[k].name) then sorted[k].name.value
    else if Truthy(currentFrameId) then VersionLabel(|sorted| - k)
    else "Select version"
  }

  /** A listed current frame is captioned as its (first) row is labelled. */
  lemma CaptionMatchesRow(sorted: seq<Frame>, id: string, index: nat)
    requires id != "" && index < |sorted| && sorted[index].frameId == id
    requires forall k :: 0 <= k < index ==> sorted[k].frameId != id
    ensures CurrentFrameName(sorted, Some(id)) == RowLabel(sorted, index)
  {
    var k := FindIndex(sorted, Some(id));
    assert k >= 0;
    assert k == index;
  }

  /**
   * A current frame that is not listed (not completed yet) is captioned
   * "Version n+1", a label no unnamed row shows.
   */
  lemma CaptionForUnlisted(sorted: seq<Frame>, id: string)
    requires id != "" && forall k :: 0 <= k < |sorted| ==> sorted[k].frameId != id
    ensures CurrentFrameName(sorted, Some(id)) == VersionLabel(|sorted| + 1)
    ensures forall i :: 0 <= i < |sorted| && !Truthy(sorted[i].name) ==> RowLabel(sorted, i) != CurrentFrameName(sorted, Some(id))
  {
    forall i | 0 <= i < |sorted| && !Truthy(sorted[i].name)
      ensures RowLabel(sorted, i) != VersionLabel(|sorted| + 1)
    {
      if RowLabel(sorted, i) == VersionLabel(|sorted| + 1) {
        VersionLabelInjective(|sorted| - i, |sorted| + 1);
      }
    }
  }

  /**
   * Without a current frame id, or with the empty id, the caption asks for
   * a choice; for the empty id, unless a named row has that id.
   */
  lemma CaptionWithoutCurrent(sorted: seq<Frame>)
    ensures CurrentFrameName(sorted, None) == "Select version"
    ensures (forall k :: 0 <= k < |sorted| && sorted[k].frameId == "" ==> !Truthy(sorted[k].name))
      ==> CurrentFrameName(sorted, Some("")) == "Select version"
  {
  }

  // ---------------------------------------------------------------------
  // Navigation
  // ---------------------------------------------------------------------

  const FrameIdQuery := "?frameId="

  /** `${pathname}?frameId=${frameId}`, the URL a chosen version replaces the current one with. */
  function VersionUrl(pathname: string, frameId: string): string {
    pathname + FrameIdQuery + frameId
  }

  /** The path before the first `?`, and the value after `?frameId=` when the query starts so. */
  function ParseVersionUrl(url: string): (Option<(string, string)>) {
    var q := IndexOf(url, "?");
    if q < 0 || !StartsWith(url[q..], FrameIdQuery) then None
    else Some((url[..q], url[q + |FrameIdQuery|..]))
  }

  /** For a path without `?`, the URL gives back the path and the frame id unchanged. */
  lemma VersionUrlRoundTrip(pathname: string, frameId: string)
    requires '?' !in pathname
    ensures ParseVersionUrl(VersionUrl(pathname, frameId)) == Some((pathname, frameId))
  {
    var url := VersionUrl(pathname, frameId);
    var n := |pathname|;
    assert url[n..] == FrameIdQuery + frameId;
    assert OccursAt(url, "?", n);
    forall j | 0 <= j < n ensures !OccursAt(url, "?", j) {
      MismatchAt(url, "?", j, 0);
    }
    assert url[..n] == pathname;
    assert url[n + |FrameIdQuery|..] == frameId;
  }
}
