/** The apply half of `update_ghosts`: once the differences are validated,
    every ghost and selection is moved from its anchor by the same
    difference, so a multi-clip drag moves as a rigid group. */
module GhostUpdate {
  import opened Timeline
  import opened Validate

  /** Which change a ghost receives, in the source's order of tests. Unlike
      the validation, this order does not test `creating`. */
  datatype Change = NoChange | SlipChange | TrimChange | MoveChange | TransitionChange

  function ChangeOf(s: Session, g: Ghost): Change {
    if s.tool == SlipTool then SlipChange
    else if g.trimming then TrimChange
    else if ClipsMovable(s) then MoveChange
    else if s.tool == TransitionTool then TransitionChange
    else NoChange
  }

  function Abs(x: int): nat {
    if x < 0 then -x else x
  }

  /** The destination track of a moved ghost. While importing, video ghosts
      only go further down and audio ghosts further up, and only when the
      pointer is over a side that has ghosts; otherwise only ghosts on the
      drag origin's side follow the track difference. */
  function MovedTrack(s: Session, g: Ghost, trackDiff: int, mouseTrack: int): int {
    if s.importing then
      if (s.videoGhosts && mouseTrack < 0) || (s.audioGhosts && mouseTrack >= 0) then
        if g.oldTrack < 0 then g.oldTrack - Abs(trackDiff) else g.oldTrack + Abs(trackDiff)
      else g.oldTrack
    else if SameSign(g.oldTrack, s.dragTrackStart) then g.oldTrack + trackDiff
    else g.oldTrack
  }

  function ApplyGhost(s: Session, g: Ghost, frameDiff: int, trackDiff: int, mouseTrack: int): Ghost {
    match ChangeOf(s, g)
    case NoChange => g
    case SlipChange => g.(clipIn := g.oldClipIn - frameDiff)
    case TrimChange =>
      if g.trimIn then g.(inFrame := g.oldIn + frameDiff, clipIn := g.oldClipIn + frameDiff)
      else g.(outFrame := g.oldOut + frameDiff)
    case MoveChange =>
      g.(track := MovedTrack(s, g, trackDiff, mouseTrack),
         inFrame := g.oldIn + frameDiff,
         outFrame := g.oldOut + frameDiff,
         clipIn := if g.transition == OpeningTransition then g.oldClipIn + frameDiff else g.clipIn)
    case TransitionChange =>
      if s.transitionToolType == Opening then g.(outFrame := g.oldOut + frameDiff)
      else g.(inFrame := g.oldIn + frameDiff)
  }

  /** One selection follows the drag: only the trimmed edge while trimming,
      otherwise the whole range (and the track when on the origin's side). */
  function ApplySelection(s: Session, sel: Selection, frameDiff: int, trackDiff: int): Selection {
    if s.trimTarget > -1 then
      if s.trimInPoint then sel.(inFrame := sel.oldIn + frameDiff)
      else sel.(outFrame := sel.oldOut + frameDiff)
    else
      sel.(inFrame := sel.oldIn + frameDiff,
           outFrame := sel.oldOut + frameDiff,
           track := if SameSign(sel.oldTrack, s.dragTrackStart) then sel.oldTrack + trackDiff else sel.oldTrack)
  }

  function ApplySelections(s: Session, sels: seq<Selection>, frameDiff: int, trackDiff: int): seq<Selection> {
    if s.tool != SlipTool && !s.importing then
      seq(|sels|, i requires 0 <= i < |sels| => ApplySelection(s, sels[i], frameDiff, trackDiff))
    else sels
  }

  /** The track difference proposed by the pointer: none for the slide tool
      or a transition selection, unless importing. */
  function ProposedTrackDiff(s: Session, mouseTrack: int): int {
    if (s.tool == SlideTool || s.transitionSelect != WholeClip) && !s.importing then 0
    else mouseTrack - s.dragTrackStart
  }

  datatype Update = Update(ghosts: seq<Ghost>, selections: seq<Selection>, frameDiff: int, trackDiff: int, snapped: bool)

  /** One pointer move: validate the (already snapped) frame difference and
      the proposed track difference, apply them, and drop the snap indicator
      when validation changed the frame difference. */
  function UpdateGhosts(s: Session, clips: Clips, pre: seq<Placed>, post: seq<Placed>, ghosts: seq<Ghost>,
                        sels: seq<Selection>, frameDiff: int, mouseTrack: int, snapped: bool): (u: Update)
    ensures |u.ghosts| == |ghosts| && |u.selections| == |sels|
    ensures u.frameDiff == ValidateFrame(s, clips, pre, post, ghosts, frameDiff)
    ensures u.trackDiff == ValidateTrack(s, ghosts, ProposedTrackDiff(s, mouseTrack))
  {
    var v := Validated(s, clips, pre, post, ghosts, frameDiff, ProposedTrackDiff(s, mouseTrack));
    Update(
      seq(|ghosts|, i requires 0 <= i < |ghosts| => ApplyGhost(s, ghosts[i], v.frameDiff, v.trackDiff, mouseTrack)),
      ApplySelections(s, sels, v.frameDiff, v.trackDiff),
      v.frameDiff,
      v.trackDiff,
      if frameDiff != v.frameDiff then false else snapped)
  }

  // ---------------------------------------------------------------------
  // Guarantees of one pointer move

  /** A ghost at its anchor is left as it is by a zero difference. */
  lemma ApplyZeroIsIdentity(s: Session, g: Ghost, mouseTrack: int)
    requires Anchored(g)
    ensures ApplyGhost(s, g, 0, 0, mouseTrack) == g
  {
  }

  /** The snap indicator survives exactly when the snapped difference was
      already legal for every ghost (given that some difference is). */
  lemma SnapKeptIffLegal(s: Session, clips: Clips, pre: seq<Placed>, post: seq<Placed>, ghosts: seq<Ghost>,
                         sels: seq<Selection>, frameDiff: int, mouseTrack: int)
    requires AllRegular(s, clips, ghosts)
    requires Satisfiable(s, clips, pre, post, ghosts)
    ensures UpdateGhosts(s, clips, pre, post, ghosts, sels, frameDiff, mouseTrack, true).snapped
            <==> AllLegal(s, clips, pre, post, ghosts, frameDiff)
  {
    if AllLegal(s, clips, pre, post, ghosts, frameDiff) {
      LegalIsKept(s, clips, pre, post, ghosts, frameDiff);
    } else {
      ValidatedIsLegal(s, clips, pre, post, ghosts, frameDiff);
    }
  }

  /** A slip on a clip with a finite source moves only `clip_in`, to
      `old_clip_in - d`, and keeps it inside `[0, media_length - ghost_length]`. */
  lemma SlipKeepsPlaceAndMedia(s: Session, clips: Clips, pre: seq<Placed>, post: seq<Placed>, ghosts: seq<Ghost>,
                               sels: seq<Selection>, frameDiff: int, mouseTrack: int, snapped: bool)
    requires s.tool == SlipTool && !s.creating
    requires AllRegular(s, clips, ghosts)
    requires Satisfiable(s, clips, pre, post, ghosts)
    ensures var u := UpdateGhosts(s, clips, pre, post, ghosts, sels, frameDiff, mouseTrack, snapped);
            && u.selections == sels
            && forall i :: 0 <= i < |ghosts| ==>
                 && u.ghosts[i] == ghosts[i].(clipIn := ghosts[i].oldClipIn - u.frameDiff)
                 && (GhostBounded(clips, ghosts[i]) ==>
                       0 <= u.ghosts[i].clipIn <= ghosts[i].mediaLength - ghosts[i].ghostLength)
  {
    var d := ValidateFrame(s, clips, pre, post, ghosts, frameDiff);
    ValidatedIsLegal(s, clips, pre, post, ghosts, frameDiff);
    forall i | 0 <= i < |ghosts| ensures SlipLegal(ghosts[i], GhostBounded(clips, ghosts[i]), d) {
      assert GhostLegal(s, clips, pre, post, ghosts[i], d);
    }
  }

  /** Trimming moves only the trimmed edge (and `clip_in` with the in point),
      and the result keeps the trim rules: at least one frame, not before
      frame 0, inside a finite source. */
  lemma TrimmedEdgesLegal(s: Session, clips: Clips, pre: seq<Placed>, post: seq<Placed>, ghosts: seq<Ghost>,
                          sels: seq<Selection>, frameDiff: int, mouseTrack: int, snapped: bool)
    requires s.tool != SlipTool && !s.creating
    requires AllRegular(s, clips, ghosts)
    requires Satisfiable(s, clips, pre, post, ghosts)
    ensures var u := UpdateGhosts(s, clips, pre, post, ghosts, sels, frameDiff, mouseTrack, snapped);
            forall i :: 0 <= i < |ghosts| && ghosts[i].trimming ==>
              && TrimLegal(ghosts[i], GhostBounded(clips, ghosts[i]), u.frameDiff)
              && (s.tool == RippleTool ==> RippleLegal(pre, post, s.trimInPoint, u.frameDiff))
              && u.ghosts[i] == (if ghosts[i].trimIn
                                 then ghosts[i].(inFrame := ghosts[i].oldIn + u.frameDiff,
                                                 clipIn := ghosts[i].oldClipIn + u.frameDiff)
                                 else ghosts[i].(outFrame := ghosts[i].oldOut + u.frameDiff))
  {
    var d := ValidateFrame(s, clips, pre, post, ghosts, frameDiff);
    ValidatedIsLegal(s, clips, pre, post, ghosts, frameDiff);
    forall i | 0 <= i < |ghosts| && ghosts[i].trimming
      ensures TrimLegal(ghosts[i], GhostBounded(clips, ghosts[i]), d)
      ensures s.tool == RippleTool ==> RippleLegal(pre, post, s.trimInPoint, d)
    {
      assert GhostLegal(s, clips, pre, post, ghosts[i], d);
    }
  }

  /** Moved ghosts shift rigidly by the validated difference (their length
      is kept) and do not start before frame 0. */
  lemma MoveIsRigid(s: Session, clips: Clips, pre: seq<Placed>, post: seq<Placed>, ghosts: seq<Ghost>,
                    sels: seq<Selection>, frameDiff: int, mouseTrack: int, snapped: bool)
    requires !s.creating
    requires AllRegular(s, clips, ghosts)
    requires Satisfiable(s, clips, pre, post, ghosts)
    ensures var u := UpdateGhosts(s, clips, pre, post, ghosts, sels, frameDiff, mouseTrack, snapped);
            forall i :: 0 <= i < |ghosts| && ChangeOf(s, ghosts[i]) == MoveChange ==>
              && u.ghosts[i].inFrame == ghosts[i].oldIn + u.frameDiff
              && u.ghosts[i].outFrame == ghosts[i].oldOut + u.frameDiff
              && u.ghosts[i].outFrame - u.ghosts[i].inFrame == ghosts[i].oldOut - ghosts[i].oldIn
              && u.ghosts[i].inFrame >= 0
  {
    var d := ValidateFrame(s, clips, pre, post, ghosts, frameDiff);
    ValidatedIsLegal(s, clips, pre, post, ghosts, frameDiff);
    forall i | 0 <= i < |ghosts| && ChangeOf(s, ghosts[i]) == MoveChange
      ensures ghosts[i].oldIn + d >= 0
    {
      assert GhostLegal(s, clips, pre, post, ghosts[i], d);
    }
  }

  /** Track-sign preservation: no ghost ends on the other side (video/audio)
      from its anchor track, whether importing or dragging, and a ghost that
      is not moved keeps its track. */
  lemma TrackSidesKept(s: Session, clips: Clips, pre: seq<Placed>, post: seq<Placed>, ghosts: seq<Ghost>,
                       sels: seq<Selection>, frameDiff: int, mouseTrack: int, snapped: bool)
    requires !s.creating
    ensures var u := UpdateGhosts(s, clips, pre, post, ghosts, sels, frameDiff, mouseTrack, snapped);
            forall i :: 0 <= i < |ghosts| ==>
              if ChangeOf(s, ghosts[i]) == MoveChange then SameSign(u.ghosts[i].track, ghosts[i].oldTrack)
              else u.ghosts[i].track == ghosts[i].track
  {
    var td := ProposedTrackDiff(s, mouseTrack);
    ValidateTrackKeepsSides(s, ghosts, td);
    var u := UpdateGhosts(s, clips, pre, post, ghosts, sels, frameDiff, mouseTrack, snapped);
    forall i | 0 <= i < |ghosts| && ChangeOf(s, ghosts[i]) == MoveChange
      ensures SameSign(u.ghosts[i].track, ghosts[i].oldTrack)
    {
      if !s.importing && SameSign(ghosts[i].oldTrack, s.dragTrackStart) {
        assert Walks(s, ghosts[i]);
      }
    }
  }

  /** Outside trimming and slipping, selections move rigidly with the drag. */
  lemma SelectionsFollow(s: Session, clips: Clips, pre: seq<Placed>, post: seq<Placed>, ghosts: seq<Ghost>,
                         sels: seq<Selection>, frameDiff: int, mouseTrack: int, snapped: bool)
    requires s.tool != SlipTool && !s.importing && s.trimTarget == -1
    ensures var u := UpdateGhosts(s, clips, pre, post, ghosts, sels, frameDiff, mouseTrack, snapped);
            forall i :: 0 <= i < |sels| ==>
              && u.selections[i].inFrame - sels[i].oldIn == u.frameDiff
              && u.selections[i].outFrame - u.selections[i].inFrame == sels[i].oldOut - sels[i].oldIn
              && u.selections[i].oldIn == sels[i].oldIn
  {
  }

  // ---------------------------------------------------------------------
  // Worked examples

  function SlipSession(): Session {
    Session(SlipTool, false, false, 0, false, WholeClip, Opening, -1, false, false)
  }

  function ExampleClip(clipIn: int, length: int, maxLength: int): Clip {
    Clip(0, length, clipIn, -1, Footage(Stream(false)), 0, maxLength, None, None, [])
  }

  function SeededGhost(c: Clip): Ghost {
    Ghost(0, WholeClip, c.timelineIn, c.timelineOut, c.timelineIn, c.timelineOut, c.clipIn, c.clipIn,
          c.track, c.track, false, false, c.Length(), c.maxLength, c.mediaId, 0, 0)
  }

  /** The update of a single ghost, spelled out: its difference is the one
      ghost's checks, and the ghost receives it. */
  lemma UpdateOne(s: Session, clips: Clips, g: Ghost, frameDiff: int, mouseTrack: int, snapped: bool)
    ensures var u := UpdateGhosts(s, clips, [], [], [g], [], frameDiff, mouseTrack, snapped);
            && u.frameDiff == GhostClamp(s, clips, [], [], g, frameDiff)
            && u.ghosts[0] == ApplyGhost(s, g, u.frameDiff, u.trackDiff, mouseTrack)
            && u.snapped == (snapped && u.frameDiff == frameDiff)
  {
    assert [g][1..] == [];
    assert ValidateFrame(s, clips, [], [], [g], frameDiff)
        == ValidateFrame(s, clips, [], [], [], GhostClamp(s, clips, [], [], g, frameDiff));
  }

  /** Slipping a 40-frame clip with `clip_in` 10 and 60 frames of media by
      -5 gives `clip_in` 15; asking for -30 stops at 20, the largest allowed. */
  lemma SlipExample()
    ensures var c := ExampleClip(10, 40, 60);
            var u := UpdateGhosts(SlipSession(), [Some(c)], [], [], [SeededGhost(c)], [], -5, -1, false);
            u.ghosts[0].clipIn == 15
    ensures var c := ExampleClip(10, 40, 60);
            var u := UpdateGhosts(SlipSession(), [Some(c)], [], [], [SeededGhost(c)], [], -30, -1, true);
            u.ghosts[0].clipIn == 20 && !u.snapped
  {
    var c := ExampleClip(10, 40, 60);
    var g := SeededGhost(c);
    var clips := [Some(c)];
    assert GhostBounded(clips, g);
    assert CheckOf(SlipSession(), g) == SlipCheck;
    assert g.oldClipIn == 10 && g.ghostLength == 40 && g.mediaLength == 60;
    assert SlipClamp(g, true, -5) == -5;
    assert SlipClamp(g, true, -30) == -10;
    assert GhostClamp(SlipSession(), clips, [], [], g, -5) == -5;
    assert GhostClamp(SlipSession(), clips, [], [], g, -30) == -10;
    UpdateOne(SlipSession(), clips, g, -5, -1, false);
    UpdateOne(SlipSession(), clips, g, -30, -1, true);
  }

  /** Dragging a clip from video track -1 toward audio track 0 leaves it on -1. */
  lemma VideoStaysVideoExample()
    ensures var s := Session(PointerTool, false, false, -1, false, WholeClip, Opening, -1, false, false);
            var c := ExampleClip(0, 40, 60);
            var u := UpdateGhosts(s, [Some(c)], [], [], [SeededGhost(c)], [], 0, 0, false);
            u.ghosts[0].track == -1
  {
    var s := Session(PointerTool, false, false, -1, false, WholeClip, Opening, -1, false, false);
    var c := ExampleClip(0, 40, 60);
    var g := SeededGhost(c);
    assert ProposedTrackDiff(s, 0) == 1;
    assert ValidateTrack(s, [g], 1) == 0;
    UpdateOne(s, [Some(c)], g, 0, 0, false);
    assert ChangeOf(s, g) == MoveChange;
  }
}
