/**
  The Tello video-stream session: the frame loop's dimension halving, the
  marker-detection counter it keeps across frames, and the console lines it
  prints for every frame in which markers are found.

  The video source, the marker detector and the display are outside the
  model: a read frame is given by its height, its width and the detector's
  answer for it.
 */
module Stream {
  import opened Wrappers
  import opened Decimal
  import opened Detections

  // ---------------------------------------------------------------------
  // Console lines
  // ---------------------------------------------------------------------

  /** A console line printed for a frame with detections. */
  datatype Report = MarkerReport(id: int) | TotalReport(total: int)

  const MarkerPrefix: string := "Detected ArUco marker ID: "
  const TotalPrefix: string := "Total detections: "

  /** The text of a console line. */
  function Render(r: Report): string {
    match r
    case MarkerReport(id) => MarkerPrefix + IntToString(id)
    case TotalReport(total) => TotalPrefix + IntToString(total)
  }

  /** Reads a console line back; None for text that no report renders to. */
  function ParseReport(line: string): Option<Report> {
    if |MarkerPrefix| <= |line| && line[..|MarkerPrefix|] == MarkerPrefix then
      match ParseInt(line[|MarkerPrefix|..])
      case Some(id) => Some(MarkerReport(id))
      case None => None
    else if |TotalPrefix| <= |line| && line[..|TotalPrefix|] == TotalPrefix then
      match ParseInt(line[|TotalPrefix|..])
      case Some(total) => Some(TotalReport(total))
      case None => None
    else None
  }

  /** Every printed line reads back as the report it was printed for, so no two reports print alike. */
  lemma ParseRender(r: Report)
    ensures ParseReport(Render(r)) == Some(r)
  {
    var line := Render(r);
    match r
    case MarkerReport(id) =>
      IntToStringRoundTrip(id);
      assert line[..|MarkerPrefix|] == MarkerPrefix;
      assert line[|MarkerPrefix|..] == IntToString(id);
    case TotalReport(total) =>
      IntToStringRoundTrip(total);
      assert line[0] == 'T' != MarkerPrefix[0];
      assert line[..|TotalPrefix|] == TotalPrefix;
      assert line[|TotalPrefix|..] == IntToString(total);
  }

  /** The lines printed for one frame when the counter stood at c before it. */
  function Printed(c: Counter, d: Detection): seq<string> {
    match d
    case None => []
    case Some(ids) =>
      seq(|ids|, i requires 0 <= i < |ids| => Render(MarkerReport(ids[i])))
      + [Render(TotalReport(Step(c, d).count))]
  }

  /** The lines printed for a run of frames, starting from counter c. */
  function Transcript(c: Counter, frames: seq<Detection>): seq<string>
    decreases |frames|
  {
    if frames == [] then []
    else
      var before := frames[..|frames| - 1];
      Transcript(c, before) + Printed(Replay(c, before), frames[|frames| - 1])
  }

  /** Once any frame had detections, the last line printed is the total carrying the current count. */
  lemma {:induction false} TranscriptEndsWithCount(c: Counter, frames: seq<Detection>)
    requires Detects(frames)
    ensures Transcript(c, frames) != []
    ensures Transcript(c, frames)[|Transcript(c, frames)| - 1] == Render(TotalReport(Replay(c, frames).count))
    decreases |frames|
  {
    var n := |frames| - 1;
    var before := frames[..n];
    if frames[n].None? {
      var j :| 0 <= j < |frames| && frames[j].Some?;
      assert before[j] == frames[j];
      TranscriptEndsWithCount(c, before);
    }
  }

  /** Markers {3, 7}, then {7}, then {3, 7} again: totals 2, 2 and 3, since 3 comes back after a
      frame with detections that lacked it. */
  lemma ThreeFrameScenario()
    ensures Transcript(Initial, [Some([3, 7]), Some([7]), Some([3, 7])])
         == [Render(MarkerReport(3)), Render(MarkerReport(7)), Render(TotalReport(2)),
             Render(MarkerReport(7)), Render(TotalReport(2)),
             Render(MarkerReport(3)), Render(MarkerReport(7)), Render(TotalReport(3))]
  {
    var f1: seq<Detection> := [Some([3, 7])];
    var f2 := f1 + [Some([7])];
    var f3 := f2 + [Some([3, 7])];
    assert IdSet([3, 7]) == {3, 7};
    assert IdSet([7]) == {7};
    assert {3, 7} - {7} == {3};
    assert f1[..0] == [];
    assert Replay(Initial, f1) == Counter(2, {3, 7});
    TranscriptOneMore(Initial, f1[..0], Some([3, 7]));
    TranscriptOneMore(Initial, f1, Some([7]));
    assert f2[..1] == f1;
    assert Replay(Initial, f2) == Counter(2, {7});
    TranscriptOneMore(Initial, f2, Some([3, 7]));
    assert f3 == [Some([3, 7]), Some([7]), Some([3, 7])];
  }

  /** The lines for one frame with detections: one per detected id, in the detector's order and
      with repeats, then one with the total. */
  method Announce(ids: seq<int>, total: nat) returns (lines: seq<string>)
    ensures |lines| == |ids| + 1
    ensures forall i :: 0 <= i < |ids| ==> lines[i] == Render(MarkerReport(ids[i]))
    ensures lines[|ids|] == Render(TotalReport(total))
  {
    lines := [];
    for i := 0 to |ids|
      invariant |lines| == i
      invariant forall k :: 0 <= k < i ==> lines[k] == Render(MarkerReport(ids[k]))
    {
      lines := lines + [Render(MarkerReport(ids[i]))];
    }
    lines := lines + [Render(TotalReport(total))];
  }

  // ---------------------------------------------------------------------
  // Frame size
  // ---------------------------------------------------------------------

  /** Half a frame dimension, rounded down: odd dimensions lose their last pixel row or column. */
  function HalfDimension(d: nat): (r: nat)
    ensures 2 * r <= d < 2 * r + 2
  {
    d / 2
  }

  // ---------------------------------------------------------------------
  // The session
  // ---------------------------------------------------------------------

  /** Whether a frame of this size can be halved: resizing to a zero height or width raises, and
      the frame loop's catch-all handler then drops the frame before any marker detection. */
  predicate Resizable(height: nat, width: nat) {
    HalfDimension(height) > 0 && HalfDimension(width) > 0
  }

  /** A frame can be halved exactly when it is at least two pixels high and two pixels wide. */
  lemma ResizableIffAtLeastTwo(height: nat, width: nat)
    ensures Resizable(height, width) <==> 2 <= height && 2 <= width
  {
  }

  /** One attempt to read the video source: it failed, or it gave a frame of the given size for
      which the detector (run on the halved frame) gave `detection`. */
  datatype Read = Failed | Frame(height: nat, width: nat, detection: Detection)

  /** The detector's answers for the frames that were read and could be halved, in order. */
  function Detected(attempts: seq<Read>): seq<Detection>
    decreases |attempts|
  {
    if attempts == [] then []
    else
      Detected(attempts[..|attempts| - 1]) + match attempts[|attempts| - 1]
        case Failed => []
        case Frame(h, w, d) => if Resizable(h, w) then [d] else []
  }

  /** The halved (height, width) of the frames that were read and could be halved, in order. */
  function HalvedSizes(attempts: seq<Read>): seq<(nat, nat)>
    decreases |attempts|
  {
    if attempts == [] then []
    else
      HalvedSizes(attempts[..|attempts| - 1]) + match attempts[|attempts| - 1]
        case Failed => []
        case Frame(h, w, _) => if Resizable(h, w) then [(HalfDimension(h), HalfDimension(w))] else []
  }

  /** Reading one more attempt extends the answers and the sizes by that attempt's, if it gave a frame. */
  lemma ReadOneMore(attempts: seq<Read>, i: nat)
    requires i < |attempts|
    ensures Detected(attempts[..i + 1]) == Detected(attempts[..i]) + match attempts[i]
      case Failed => []
      case Frame(h, w, d) => if Resizable(h, w) then [d] else []
    ensures HalvedSizes(attempts[..i + 1]) == HalvedSizes(attempts[..i]) + match attempts[i]
      case Failed => []
      case Frame(h, w, _) => if Resizable(h, w) then [(HalfDimension(h), HalfDimension(w))] else []
  {
    assert attempts[..i + 1][..i] == attempts[..i];
  }

  /** One more frame extends the transcript by the lines printed for it. */
  lemma TranscriptOneMore(c: Counter, frames: seq<Detection>, d: Detection)
    ensures Transcript(c, frames + [d]) == Transcript(c, frames) + Printed(Replay(c, frames), d)
  {
  }

  class Tello {
    var detectionCount: nat
    var lastDetectedIds: set<int>
    /** Every detector answer seen so far, oldest first. */
    ghost var history: seq<Detection>

    /** The two counter fields are those of the counter replayed over the history. */
    ghost predicate Valid()
      reads this
    {
      Replay(Initial, history) == Counter(detectionCount, lastDetectedIds)
    }

    /** A fresh session has counted nothing and remembers no ids. */
    constructor ()
      ensures Valid() && history == []
      ensures detectionCount == 0 && lastDetectedIds == {}
    {
      detectionCount := 0;
      lastDetectedIds := {};
      history := [];
    }

    /** Updates the counter with the detector's answer for one frame and returns the lines printed. */
    method ReadAruco(ids: Detection) returns (lines: seq<string>)
      requires Valid()
      modifies this
      ensures Valid() && history == old(history) + [ids]
      ensures ids.None? ==>
        && detectionCount == old(detectionCount)
        && lastDetectedIds == old(lastDetectedIds)
        && lines == []
      ensures ids.Some? ==>
        && lastDetectedIds == IdSet(ids.value)
        && detectionCount == old(detectionCount) + |IdSet(ids.value) - old(lastDetectedIds)|
        && |lines| == |ids.value| + 1
        && (forall i :: 0 <= i < |ids.value| ==> lines[i] == Render(MarkerReport(ids.value[i])))
        && lines[|ids.value|] == Render(TotalReport(detectionCount))
      ensures lines == Printed(Counter(old(detectionCount), old(lastDetectedIds)), ids)
    {
      ghost var before := Counter(detectionCount, lastDetectedIds);
      lines := [];
      if ids.Some? {
        var current := set id | id in ids.value;
        var newDetections := current - lastDetectedIds;
        detectionCount := detectionCount + |newDetections|;
        lastDetectedIds := current;
        lines := Announce(ids.value, detectionCount);
      }
      history := history + [ids];
      assert history[..|history| - 1] == old(history);
      assert Counter(detectionCount, lastDetectedIds) == Step(before, ids);
    }

    /** The frame loop over a finite series of read attempts: each frame that was read is halved
        and handed to ReadAruco; failed reads, and frames whose halved height or width is 0 (the
        resize raises and the iteration is abandoned), are skipped. */
    method Recv(attempts: seq<Read>) returns (sizes: seq<(nat, nat)>, output: seq<string>)
      requires Valid()
      modifies this
      ensures Valid() && history == old(history) + Detected(attempts)
      ensures sizes == HalvedSizes(attempts)
      ensures output == Transcript(Counter(old(detectionCount), old(lastDetectedIds)), Detected(attempts))
    {
      ghost var start := Counter(detectionCount, lastDetectedIds);
      ghost var earlier := history;
      sizes, output := [], [];
      for i := 0 to |attempts|
        invariant Valid()
        invariant history == earlier + Detected(attempts[..i])
        invariant sizes == HalvedSizes(attempts[..i])
        invariant output == Transcript(start, Detected(attempts[..i]))
      {
        ReadOneMore(attempts, i);
        ghost var seen := Detected(attempts[..i]);
        var newHeight, newWidth := 0, 0;
        if attempts[i].Frame? {
          newHeight := HalfDimension(attempts[i].height);
          newWidth := HalfDimension(attempts[i].width);
        }
        if attempts[i].Frame? && newHeight > 0 && newWidth > 0 {
          var ids := attempts[i].detection;
          sizes := sizes + [(newHeight, newWidth)];
          ReplayAppend(Initial, earlier, seen);
          assert Replay(start, seen) == Counter(detectionCount, lastDetectedIds);
          var lines := ReadAruco(ids);
          TranscriptOneMore(start, seen, ids);
          output := output + lines;
          assert Detected(attempts[..i + 1]) == seen + [ids];
        } else {
          assert Detected(attempts[..i + 1]) == seen;
        }
      }
      assert attempts[..|attempts|] == attempts;
    }
  }
}
