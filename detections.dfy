/**
  The marker-detection counter of the Tello video stream, as a pure
  specification.

  Per frame the marker detector answers either "no markers" (None) or the
  ids of the markers it found, in its own order and possibly repeated.  The
  counter keeps a running count and the set of ids of the latest frame with
  detections.  A frame with detections adds the number of its distinct ids
  that were not in that set, and then replaces the set; a frame without
  detections changes nothing, in particular it does not empty the set.

  `Step` and `Replay` describe the counter as the program runs it.  `LastIds`,
  `Arrived` and `Arrivals` restate the count as a sum over the frames, and
  `Counted` and `CountedOver` restate it per marker; the lemmas tie these
  views together.
 */
module Detections {
  import opened Wrappers

  /** The detector's answer for one frame: None when it found no marker. */
  type Detection = Option<seq<int>>

  /** The distinct ids among a frame's detected ids. */
  function IdSet(ids: seq<int>): set<int> {
    set id | id in ids
  }

  /** The counter's state: the running count and the ids of the latest frame with detections. */
  datatype Counter = Counter(count: nat, last: set<int>)

  /** The state of a fresh session. */
  const Initial := Counter(0, {})

  /** One frame through the counter. */
  function Step(c: Counter, d: Detection): Counter {
    match d
    case None => c
    case Some(ids) =>
      var current := IdSet(ids);
      Counter(c.count + |current - c.last|, current)
  }

  /** A run of frames through the counter, oldest first. */
  function Replay(c: Counter, frames: seq<Detection>): Counter
    decreases |frames|
  {
    if frames == [] then c
    else Step(Replay(c, frames[..|frames| - 1]), frames[|frames| - 1])
  }

  // ---------------------------------------------------------------------
  // The count as a sum over frames
  // ---------------------------------------------------------------------

  /** True when some frame of `frames` has detections. */
  predicate Detects(frames: seq<Detection>) {
    exists j :: 0 <= j < |frames| && frames[j].Some?
  }

  /** True when no frame of `frames` has detections. */
  predicate Blank(frames: seq<Detection>) {
    forall j :: 0 <= j < |frames| ==> frames[j].None?
  }

  /** The ids of the latest frame of `frames` that has detections; empty if there is none. */
  function LastIds(frames: seq<Detection>): set<int>
    decreases |frames|
  {
    if frames == [] then {}
    else match frames[|frames| - 1]
      case Some(ids) => IdSet(ids)
      case None => LastIds(frames[..|frames| - 1])
  }

  /** The ids that frame j newly brings: those not in the latest earlier frame with detections. */
  function Arrived(frames: seq<Detection>, j: nat): set<int>
    requires j < |frames|
  {
    match frames[j]
    case None => {}
    case Some(ids) => IdSet(ids) - LastIds(frames[..j])
  }

  /** The sum, over all frames j, of the number of ids frame j newly brings. */
  function Arrivals(frames: seq<Detection>): nat
    decreases |frames|
  {
    if frames == [] then 0
    else Arrivals(frames[..|frames| - 1]) + |Arrived(frames, |frames| - 1)|
  }

  /** LastIds is the id set of the latest frame with detections. */
  lemma {:induction false} LastIdsIsLatestDetection(frames: seq<Detection>, k: nat)
    requires k < |frames| && frames[k].Some?
    requires Blank(frames[k + 1..])
    ensures LastIds(frames) == IdSet(frames[k].value)
    decreases |frames|
  {
    if k < |frames| - 1 {
      var n := |frames| - 1;
      assert frames[n] == frames[k + 1..][n - k - 1];
      assert frames[..n][k + 1..] == frames[k + 1..][..n - k - 1];
      LastIdsIsLatestDetection(frames[..n], k);
    }
  }

  /** Without any frame with detections there are no last ids. */
  lemma {:induction false} LastIdsOfBlank(frames: seq<Detection>)
    requires Blank(frames)
    ensures LastIds(frames) == {}
    decreases |frames|
  {
    if frames != [] {
      LastIdsOfBlank(frames[..|frames| - 1]);
    }
  }

  /** The counter computes the sum: its count is Arrivals and its set is LastIds. */
  lemma {:induction false} ReplayIsArrivals(frames: seq<Detection>)
    ensures Replay(Initial, frames) == Counter(Arrivals(frames), LastIds(frames))
    decreases |frames|
  {
    if frames != [] {
      var n := |frames| - 1;
      ReplayIsArrivals(frames[..n]);
    }
  }

  /** Replaying two runs one after the other is replaying their concatenation. */
  lemma {:induction false} ReplayAppend(c: Counter, first: seq<Detection>, second: seq<Detection>)
    ensures Replay(c, first + second) == Replay(Replay(c, first), second)
    decreases |second|
  {
    if second != [] {
      var n := |second| - 1;
      assert (first + second)[..|first + second| - 1] == first + second[..n];
      assert (first + second)[|first + second| - 1] == second[n];
      ReplayAppend(c, first, second[..n]);
    } else {
      assert first + second == first;
    }
  }

  /** The count never decreases, whatever frames follow. */
  lemma {:induction false} CountNeverDecreases(c: Counter, frames: seq<Detection>)
    ensures Replay(c, frames).count >= c.count
    decreases |frames|
  {
    if frames != [] {
      CountNeverDecreases(c, frames[..|frames| - 1]);
    }
  }

  /** Along one session, the count after a prefix of the frames is at most the count after a longer one. */
  lemma CountMonotoneAlongRun(frames: seq<Detection>, i: nat, k: nat)
    requires i <= k <= |frames|
    ensures Replay(Initial, frames[..i]).count <= Replay(Initial, frames[..k]).count
  {
    assert frames[..k] == frames[..i] + frames[i..k];
    ReplayAppend(Initial, frames[..i], frames[i..k]);
    CountNeverDecreases(Replay(Initial, frames[..i]), frames[i..k]);
  }

  /** Frames without detections change neither the counter nor the last ids. */
  lemma {:induction false} BlankFramesChangeNothing(c: Counter, frames: seq<Detection>, gap: seq<Detection>)
    requires Blank(gap)
    ensures Replay(c, frames + gap) == Replay(c, frames)
    ensures LastIds(frames + gap) == LastIds(frames)
    decreases |gap|
  {
    if gap != [] {
      var n := |gap| - 1;
      assert (frames + gap)[..|frames + gap| - 1] == frames + gap[..n];
      assert (frames + gap)[|frames + gap| - 1] == gap[n] == None;
      BlankFramesChangeNothing(c, frames, gap[..n]);
    } else {
      assert frames + gap == frames;
    }
  }

  /** A frame adds nothing after a frame with detections exactly when its ids are among that frame's. */
  lemma RepeatAddsNothing(c: Counter, first: seq<int>, second: seq<int>)
    ensures Step(Step(c, Some(first)), Some(second)).count == Step(c, Some(first)).count
            <==> IdSet(second) <= IdSet(first)
  {
    var a, b := IdSet(first), IdSet(second);
    if b - a == {} {
      forall x | x in b
        ensures x in a
      {
        assert x !in b - a;
      }
    }
  }

  /** A frame's ids have at most as many distinct values as entries. */
  lemma {:induction false} IdSetSize(ids: seq<int>)
    ensures |IdSet(ids)| <= |ids|
    decreases |ids|
  {
    if ids != [] {
      var n := |ids| - 1;
      IdSetSize(ids[..n]);
      assert IdSet(ids) == IdSet(ids[..n]) + {ids[n]};
    }
  }

  /** A frame adds at most its number of distinct ids, so repeated ids count once. */
  lemma FrameAddsAtMostDistinctIds(c: Counter, ids: seq<int>)
    ensures Step(c, Some(ids)).count - c.count <= |IdSet(ids)| <= |ids|
  {
    var current := IdSet(ids);
    assert current == (current - c.last) + (current * c.last);
    IdSetSize(ids);
  }

  // ---------------------------------------------------------------------
  // The count per marker
  // ---------------------------------------------------------------------

  /** The number of frames that newly bring marker m. */
  function Counted(frames: seq<Detection>, m: int): nat
    decreases |frames|
  {
    if frames == [] then 0
    else Counted(frames[..|frames| - 1], m) + (if m in Arrived(frames, |frames| - 1) then 1 else 0)
  }

  /** Every id that occurs in some frame with detections. */
  function Universe(frames: seq<Detection>): set<int>
    decreases |frames|
  {
    if frames == [] then {}
    else Universe(frames[..|frames| - 1]) + match frames[|frames| - 1]
      case None => {}
      case Some(ids) => IdSet(ids)
  }

  /** A marker in every frame with detections is counted once if it shows up at all, however long the run. */
  lemma {:induction false} PresentThroughoutCountedOnce(frames: seq<Detection>, m: int)
    requires forall j :: 0 <= j < |frames| && frames[j].Some? ==> m in frames[j].value
    ensures Counted(frames, m) == if Detects(frames) then 1 else 0
    ensures Detects(frames) ==> m in LastIds(frames)
    decreases |frames|
  {
    if frames != [] {
      var n := |frames| - 1;
      var pre := frames[..n];
      PresentThroughoutCountedOnce(pre, m);
      assert forall i :: 0 <= i < n ==> pre[i] == frames[i];
      if Detects(pre) {
        var j :| 0 <= j < |pre| && pre[j].Some?;
        assert frames[j] == pre[j];
      } else {
        LastIdsOfBlank(pre);
      }
    }
  }

  /** A marker seen, then missing from a frame with detections, then seen again is counted twice;
      frames without detections in between do not matter. */
  lemma Reappearance(first: seq<int>, gap1: seq<Detection>, without: seq<int>,
                     gap2: seq<Detection>, again: seq<int>, m: int)
    requires m in first && m !in without && m in again
    requires Blank(gap1) && Blank(gap2)
    ensures Counted([Some(first)] + gap1 + [Some(without)] + gap2 + [Some(again)], m) == 2
  {
    var f1 := [Some(first)];
    assert f1[..0] == [];
    var f2 := f1 + gap1;
    BlankCountsNothing(f1, gap1, m);
    BlankFramesChangeNothing(Initial, f1, gap1);
    var f3 := f2 + [Some(without)];
    assert f3[..|f3| - 1] == f2;
    var f4 := f3 + gap2;
    BlankCountsNothing(f3, gap2, m);
    BlankFramesChangeNothing(Initial, f3, gap2);
    var f5 := f4 + [Some(again)];
    assert f5[..|f5| - 1] == f4;
  }

  /** Frames without detections count no marker. */
  lemma {:induction false} BlankCountsNothing(frames: seq<Detection>, gap: seq<Detection>, m: int)
    requires Blank(gap)
    ensures Counted(frames + gap, m) == Counted(frames, m)
    decreases |gap|
  {
    if gap != [] {
      var n := |gap| - 1;
      assert (frames + gap)[..|frames + gap| - 1] == frames + gap[..n];
      assert (frames + gap)[|frames + gap| - 1] == gap[n] == None;
      BlankCountsNothing(frames, gap[..n], m);
    } else {
      assert frames + gap == frames;
    }
  }

  /** The sum of Counted over a set of markers. */
  ghost function CountedOver(frames: seq<Detection>, markers: set<int>): nat
    decreases markers
  {
    if markers == {} then 0
    else
      HasMember(markers);
      var m :| m in markers;
      Counted(frames, m) + CountedOver(frames, markers - {m})
  }

  lemma HasMember(s: set<int>)
    ensures s != {} ==> exists m :: m in s
  {
    if forall m :: m !in s {
      assert s == {};
    }
  }

  /** CountedOver may take its markers in any order. */
  lemma {:induction false} CountedOverPick(frames: seq<Detection>, markers: set<int>, m: int)
    requires m in markers
    ensures CountedOver(frames, markers) == Counted(frames, m) + CountedOver(frames, markers - {m})
    decreases markers
  {
    var x :| x in markers && CountedOver(frames, markers) == Counted(frames, x) + CountedOver(frames, markers - {x});
    if x != m {
      CountedOverPick(frames, markers - {x}, m);
      CountedOverPick(frames, markers - {m}, x);
      assert markers - {x} - {m} == markers - {m} - {x};
    }
  }

  /** Before any frame no marker has been counted. */
  lemma {:induction false} CountedOverEmptyRun(markers: set<int>)
    ensures CountedOver([], markers) == 0
    decreases markers
  {
    if markers != {} {
      HasMember(markers);
      var m :| m in markers;
      CountedOverPick([], markers, m);
      CountedOverEmptyRun(markers - {m});
    }
  }

  /** One more frame adds, summed over the markers, one for each of them it newly brings. */
  lemma {:induction false} CountedOverStep(frames: seq<Detection>, markers: set<int>)
    requires frames != []
    ensures CountedOver(frames, markers)
            == CountedOver(frames[..|frames| - 1], markers) + |markers * Arrived(frames, |frames| - 1)|
    decreases markers
  {
    if markers != {} {
      var pre := frames[..|frames| - 1];
      var arrived := Arrived(frames, |frames| - 1);
      HasMember(markers);
      var m :| m in markers;
      CountedOverPick(frames, markers, m);
      CountedOverPick(pre, markers, m);
      CountedOverStep(frames, markers - {m});
      var rest := (markers - {m}) * arrived;
      if m in arrived {
        assert markers * arrived == rest + {m};
      } else {
        assert markers * arrived == rest;
      }
    }
  }

  /** The running count is the sum, over every marker, of the number of times it was newly brought. */
  lemma {:induction false} CountIsSumOverMarkers(frames: seq<Detection>, markers: set<int>)
    requires Universe(frames) <= markers
    ensures Replay(Initial, frames).count == CountedOver(frames, markers)
    decreases |frames|
  {
    ReplayIsArrivals(frames);
    if frames == [] {
      CountedOverEmptyRun(markers);
    } else {
      var n := |frames| - 1;
      var pre := frames[..n];
      assert Universe(pre) <= Universe(frames);
      CountIsSumOverMarkers(pre, markers);
      ReplayIsArrivals(pre);
      CountedOverStep(frames, markers);
      var arrived := Arrived(frames, n);
      assert arrived <= markers;
      assert markers * arrived == arrived;
    }
  }
}
