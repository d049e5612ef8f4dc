/** The gap the timeline's context menu offers to ripple-delete when no clip
    is selected: the empty stretch of the cursor's track around the cursor,
    bounded by the nearest clip ends before it (or frame 0) and the nearest
    clip starts after it (or the largest `long`). */
module RippleGap {
  import opened Timeline

  /** The largest value of a 64-bit `long`, the open upper end of a gap. */
  const LongMax: int := 0x7FFF_FFFF_FFFF_FFFF

  datatype Gap = Gap(offered: bool, lo: int, hi: int)

  predicate OnTrack(clips: Clips, j: int, track: int) {
    0 <= j < |clips| && clips[j].Some? && clips[j].value.track == track
  }

  /** Clip `j` on the track touches or covers the cursor frame. */
  predicate Covers(clips: Clips, j: int, frame: int, track: int) {
    OnTrack(clips, j, track) && clips[j].value.timelineIn <= frame <= clips[j].value.timelineOut
  }

  /** Some clip, on any track, reaches past the cursor frame. */
  predicate Beyond(clips: Clips, j: int, frame: int) {
    0 <= j < |clips| && clips[j].Some? && (clips[j].value.timelineIn > frame || clips[j].value.timelineOut > frame)
  }

  /** The scan over the clip table. Ripple delete is offered when no clip on
      the cursor's track touches the cursor frame and the cursor is not past
      the end of the sequence. */
  method FindGap(clips: Clips, frame: int, track: int) returns (g: Gap)
    ensures g.offered <==>
      (forall j :: 0 <= j < |clips| ==> !Covers(clips, j, frame, track))
      && (exists j :: 0 <= j < |clips| && Beyond(clips, j, frame))
    ensures g.offered ==> 0 <= g.lo && g.hi <= LongMax
    ensures g.offered ==> forall j :: OnTrack(clips, j, track) && clips[j].value.timelineOut < frame ==> clips[j].value.timelineOut <= g.lo
    ensures g.offered ==> forall j :: OnTrack(clips, j, track) && frame < clips[j].value.timelineIn <= clips[j].value.timelineOut ==> g.hi <= clips[j].value.timelineIn
    ensures g.offered && g.lo != 0 ==> exists j :: OnTrack(clips, j, track) && clips[j].value.timelineOut == g.lo < frame
    ensures g.offered && g.hi != LongMax ==> exists j :: OnTrack(clips, j, track) && frame < clips[j].value.timelineIn == g.hi
  {
    var can := true;
    var atEnd := true;
    var lo := 0;
    var hi := LongMax;
    var i := 0;
    while i < |clips|
      invariant 0 <= i <= |clips|
      invariant can ==> forall j :: 0 <= j < i ==> !Covers(clips, j, frame, track)
      invariant !can ==> exists j :: 0 <= j < |clips| && Covers(clips, j, frame, track)
      invariant atEnd <==> forall j :: 0 <= j < i ==> !Beyond(clips, j, frame)
      invariant can ==> 0 <= lo && hi <= LongMax
      invariant can ==> forall j :: 0 <= j < i && OnTrack(clips, j, track) && clips[j].value.timelineOut < frame ==> clips[j].value.timelineOut <= lo
      invariant can ==> forall j :: 0 <= j < i && OnTrack(clips, j, track) && frame < clips[j].value.timelineIn <= clips[j].value.timelineOut ==> hi <= clips[j].value.timelineIn
      invariant can && lo != 0 ==> exists j :: OnTrack(clips, j, track) && clips[j].value.timelineOut == lo < frame
      invariant can && hi != LongMax ==> exists j :: OnTrack(clips, j, track) && frame < clips[j].value.timelineIn == hi
      decreases |clips| - i
    {
      if clips[i].Some? {
        var c := clips[i].value;
        if c.timelineIn > frame || c.timelineOut > frame {
          atEnd := false;
        }
        if c.track == track {
          if c.timelineIn <= frame && c.timelineOut >= frame {
            assert Covers(clips, i, frame, track);
            can := false;
            break;
          } else if c.timelineOut < frame {
            lo := if lo > c.timelineOut then lo else c.timelineOut;
          } else if c.timelineIn > frame {
            hi := if hi < c.timelineIn then hi else c.timelineIn;
          }
        }
      }
      assert atEnd ==> !Beyond(clips, i, frame);
      assert !atEnd ==> Beyond(clips, i, frame) || exists j :: 0 <= j < i && Beyond(clips, j, frame);
      i := i + 1;
    }
    g := Gap(can && !atEnd, lo, hi);
  }

  /** The selection ripple delete removes: the gap on the cursor's track. */
  function GapSelection(g: Gap, track: int): Selection {
    Selection(g.lo, g.hi, track, g.lo, g.hi, track)
  }

  /** An offered gap holds the cursor (when the cursor is after frame 0 and
      before the largest `long`) and no clip of the cursor's track overlaps
      it, so the ripple delete removes nothing but empty frames. Clips whose
      start lies after their end are not covered by this. */
  method OfferedGapIsEmpty(clips: Clips, frame: int, track: int) returns (g: Gap)
    ensures g.offered && 0 < frame ==> g.lo < frame
    ensures g.offered && frame < LongMax ==> frame < g.hi
    ensures g.offered ==> forall j :: OnTrack(clips, j, track) && clips[j].value.timelineIn <= clips[j].value.timelineOut ==>
      clips[j].value.timelineOut <= g.lo || g.hi <= clips[j].value.timelineIn
  {
    g := FindGap(clips, frame, track);
    if g.offered {
      forall j | OnTrack(clips, j, track) && clips[j].value.timelineIn <= clips[j].value.timelineOut
        ensures clips[j].value.timelineOut <= g.lo || g.hi <= clips[j].value.timelineIn
      {
        assert !Covers(clips, j, frame, track);
      }
      if g.lo != 0 {
        var j :| OnTrack(clips, j, track) && clips[j].value.timelineOut == g.lo < frame;
      }
      if g.hi != LongMax {
        var j :| OnTrack(clips, j, track) && frame < clips[j].value.timelineIn == g.hi;
      }
    }
  }
}
