/** Gesture start: which ghosts a drag creates, where they are anchored, and
    the ghosts a drop from the project lays out. */
module Seeding {
  import opened Timeline
  import opened Validate

  /** A ghost before `init_ghosts` fills its positions. */
  function Blank(clip: int, part: Part, trimming: bool, trimIn: bool): Ghost {
    Ghost(clip, part, 0, 0, 0, 0, 0, 0, 0, 0, trimming, trimIn, 0, 0, 0, 0, 0)
  }

  /** A clip as the editor keeps it: not before frame 0, at least a frame
      long, its source window inside the media, transitions inside the clip. */
  predicate WellFormed(c: Clip) {
    && c.timelineIn >= 0
    && c.Length() >= 1
    && c.clipIn >= 0
    && c.clipIn + c.Length() <= c.maxLength
    && (c.opening.Some? ==> 1 <= c.opening.value <= c.Length())
    && (c.closing.Some? ==> 1 <= c.closing.value <= c.Length())
  }

  // ---------------------------------------------------------------------
  // init_ghosts

  /** Anchors a ghost on its clip: the whole clip, or the frames of its
      opening or closing transition. */
  function InitGhost(c: Clip, g: Ghost): (r: Ghost)
    ensures PartExists(c, g.transition) ==> Anchored(r)
    ensures r.clip == g.clip && r.transition == g.transition
    ensures r.trimming == g.trimming && r.trimIn == g.trimIn
    ensures r.track == c.track && r.mediaLength == c.maxLength
  {
    var g1 := g.(track := c.track, oldTrack := c.track, clipIn := c.clipIn, oldClipIn := c.clipIn);
    var g2 :=
      match g.transition
      case WholeClip =>
        g1.(inFrame := c.timelineIn, oldIn := c.timelineIn, outFrame := c.timelineOut, oldOut := c.timelineOut,
            ghostLength := c.Length())
      case OpeningTransition =>
        if c.opening.Some? then
          g1.(inFrame := c.timelineIn, oldIn := c.timelineIn,
              outFrame := c.timelineIn + c.opening.value, oldOut := c.timelineIn + c.opening.value,
              ghostLength := c.opening.value)
        else g1
      case ClosingTransition =>
        if c.closing.Some? then
          g1.(inFrame := c.timelineOut - c.closing.value, oldIn := c.timelineOut - c.closing.value,
              outFrame := c.timelineOut, oldOut := c.timelineOut,
              ghostLength := c.closing.value,
              clipIn := c.clipIn + c.Length() - c.closing.value,
              oldClipIn := c.clipIn + c.Length() - c.closing.value)
        else g1;
    g2.(mediaLength := c.maxLength)
  }

  /** The part a ghost stands for exists on its clip. */
  predicate PartExists(c: Clip, p: Part) {
    match p
    case WholeClip => true
    case OpeningTransition => c.opening.Some?
    case ClosingTransition => c.closing.Some?
  }

  /** A seeded ghost covers exactly its part of the clip, and shows the same
      source frames the clip shows there. */
  lemma InitGhostCoversPart(c: Clip, g: Ghost)
    requires WellFormed(c) && PartExists(c, g.transition)
    ensures var r := InitGhost(c, g);
            && c.timelineIn <= r.inFrame < r.outFrame <= c.timelineOut
            && r.outFrame - r.inFrame == r.ghostLength
            && r.clipIn - c.clipIn == r.inFrame - c.timelineIn
            && (r.transition == WholeClip ==> r.inFrame == c.timelineIn && r.outFrame == c.timelineOut)
            && (r.transition == OpeningTransition ==> r.inFrame == c.timelineIn)
            && (r.transition == ClosingTransition ==> r.outFrame == c.timelineOut)
  {
  }

  function InitGhosts(clips: Clips, gs: seq<Ghost>): (r: seq<Ghost>)
    requires OnClips(clips, gs)
    ensures |r| == |gs|
    ensures forall k :: 0 <= k < |r| ==> r[k].clip == gs[k].clip && r[k].transition == gs[k].transition
    ensures forall k :: 0 <= k < |r| ==> PartExists(ClipOf(clips, gs[k]), gs[k].transition) ==> Anchored(r[k])
  {
    seq(|gs|, k requires 0 <= k < |gs| => InitGhost(ClipOf(clips, gs[k]), gs[k]))
  }

  function InitSelections(sels: seq<Selection>): (r: seq<Selection>)
    ensures |r| == |sels|
    ensures forall k :: 0 <= k < |r| ==>
      && r[k].oldIn == r[k].inFrame == sels[k].inFrame
      && r[k].oldOut == r[k].outFrame == sels[k].outFrame
      && r[k].oldTrack == r[k].track == sels[k].track
  {
    seq(|sels|, k requires 0 <= k < |sels| => sels[k].(oldIn := sels[k].inFrame, oldOut := sels[k].outFrame, oldTrack := sels[k].track))
  }

  /** Ghosts seeded from well-formed clips start legal: the zero difference
      passes every check but the ripple tool's (which depends on the pre
      and post clips), so the validator always finds a legal difference. */
  lemma SeededStartIsLegal(s: Session, clips: Clips, pre: seq<Placed>, post: seq<Placed>, gs: seq<Ghost>)
    requires OnClips(clips, gs)
    requires forall k :: 0 <= k < |gs| ==>
               WellFormed(ClipOf(clips, gs[k])) && PartExists(ClipOf(clips, gs[k]), gs[k].transition)
    requires s.tool == RippleTool ==> RippleLegal(pre, post, s.trimInPoint, 0)
    ensures AllRegular(s, clips, InitGhosts(clips, gs))
    ensures AllLegal(s, clips, pre, post, InitGhosts(clips, gs), 0)
    ensures Satisfiable(s, clips, pre, post, InitGhosts(clips, gs))
  {
    var r := InitGhosts(clips, gs);
    forall k | 0 <= k < |r|
      ensures Regular(s, clips, r[k]) && GhostLegal(s, clips, pre, post, r[k], 0)
    {
      var c := ClipOf(clips, gs[k]);
      InitGhostCoversPart(c, gs[k]);
      assert ClipAt(clips, r[k].clip) == Some(c);
    }
  }

  // ---------------------------------------------------------------------
  // Ghosts for the selection (a pointer, trim, slip or slide drag)

  predicate CoversOpening(c: Clip, sel: Selection) {
    sel.track == c.track && c.opening.Some?
    && sel.inFrame == c.timelineIn && sel.outFrame == c.timelineIn + c.opening.value
  }

  predicate CoversClosing(c: Clip, sel: Selection) {
    sel.track == c.track && c.closing.Some?
    && sel.inFrame == c.timelineOut - c.closing.value && sel.outFrame == c.timelineOut
  }

  /** The transition of `c` that the first matching selection (from `j` on)
      covers exactly; the opening wins when one selection covers both. */
  function CoveredFrom(c: Clip, sels: seq<Selection>, j: nat): (r: Option<Side>)
    requires j <= |sels|
    ensures r.None? <==> forall k :: j <= k < |sels| ==> !CoversOpening(c, sels[k]) && !CoversClosing(c, sels[k])
    ensures r == Some(Opening) ==> c.opening.Some? && exists k :: j <= k < |sels| && CoversOpening(c, sels[k])
    ensures r == Some(Closing) ==> c.closing.Some? && exists k :: j <= k < |sels| && CoversClosing(c, sels[k])
    decreases |sels| - j
  {
    if j == |sels| then None
    else if CoversOpening(c, sels[j]) then Some(Opening)
    else if CoversClosing(c, sels[j]) then Some(Closing)
    else CoveredFrom(c, sels, j + 1)
  }

  /** What a present clip contributes to the drag: itself when selected,
      else (pointer tool only) a transition that a selection covers. */
  function Grabbed(s: Session, c: Clip, isSelected: bool, sels: seq<Selection>): Option<Part> {
    if isSelected then Some(WholeClip)
    else if s.tool == PointerTool && (c.opening.Some? || c.closing.Some?) then
      match CoveredFrom(c, sels, 0)
      case None => None
      case Some(Opening) => Some(OpeningTransition)
      case Some(Closing) => Some(ClosingTransition)
    else None
  }

  predicate GrabbedAt(s: Session, clips: Clips, selected: set<int>, sels: seq<Selection>, j: int) {
    Present(clips, j) && Grabbed(s, clips[j].value, j in selected, sels).Some?
  }

  /** `g` is the ghost the drag creates for its clip. */
  predicate GhostFor(s: Session, clips: Clips, selected: set<int>, sels: seq<Selection>, g: Ghost) {
    && Present(clips, g.clip)
    && Grabbed(s, ClipOf(clips, g), g.clip in selected, sels) == Some(g.transition)
    && g.trimming == (s.trimTarget > -1) && g.trimIn == s.trimInPoint
  }

  function GrabbedGhost(s: Session, clips: Clips, selected: set<int>, sels: seq<Selection>, i: nat): seq<Ghost>
    requires i < |clips|
  {
    if clips[i].None? then []
    else match Grabbed(s, clips[i].value, i in selected, sels)
      case None => []
      case Some(p) => [Blank(i, p, s.trimTarget > -1, s.trimInPoint)]
  }

  function SelectGhostsFrom(s: Session, clips: Clips, selected: set<int>, sels: seq<Selection>, i: nat): seq<Ghost>
    requires i <= |clips|
    decreases |clips| - i
  {
    if i == |clips| then []
    else GrabbedGhost(s, clips, selected, sels, i) + SelectGhostsFrom(s, clips, selected, sels, i + 1)
  }

  ghost predicate ClipsFrom(i: int, r: seq<Ghost>) {
    && (forall k :: 0 <= k < |r| ==> i <= r[k].clip)
    && (forall k, l :: 0 <= k < l < |r| ==> r[k].clip < r[l].clip)
  }

  lemma {:induction false} SelectGhostsFromOrdered(s: Session, clips: Clips, selected: set<int>, sels: seq<Selection>, i: nat)
    requires i <= |clips|
    ensures ClipsFrom(i, SelectGhostsFrom(s, clips, selected, sels, i))
    decreases |clips| - i
  {
    if i < |clips| {
      var here := GrabbedGhost(s, clips, selected, sels, i);
      var rest := SelectGhostsFrom(s, clips, selected, sels, i + 1);
      SelectGhostsFromOrdered(s, clips, selected, sels, i + 1);
      var r := here + rest;
      assert forall k :: |here| <= k < |r| ==> r[k] == rest[k - |here|];
      assert forall k :: 0 <= k < |here| ==> r[k].clip == i;
    }
  }

  ghost predicate GhostsFor(s: Session, clips: Clips, selected: set<int>, sels: seq<Selection>, r: seq<Ghost>) {
    forall k :: 0 <= k < |r| ==> GhostFor(s, clips, selected, sels, r[k])
  }

  lemma {:induction false} SelectGhostsFromSound(s: Session, clips: Clips, selected: set<int>, sels: seq<Selection>, i: nat)
    requires i <= |clips|
    ensures GhostsFor(s, clips, selected, sels, SelectGhostsFrom(s, clips, selected, sels, i))
    decreases |clips| - i
  {
    if i < |clips| {
      var here := GrabbedGhost(s, clips, selected, sels, i);
      var rest := SelectGhostsFrom(s, clips, selected, sels, i + 1);
      SelectGhostsFromSound(s, clips, selected, sels, i + 1);
      var r := here + rest;
      assert forall k :: |here| <= k < |r| ==> r[k] == rest[k - |here|];
      assert forall k :: 0 <= k < |here| ==> r[k] == here[k];
    }
  }

  ghost predicate GrabbedCovered(s: Session, clips: Clips, selected: set<int>, sels: seq<Selection>, i: nat, r: seq<Ghost>) {
    forall j :: i <= j < |clips| && GrabbedAt(s, clips, selected, sels, j) ==> exists k :: 0 <= k < |r| && r[k].clip == j
  }

  lemma {:induction false} SelectGhostsFromComplete(s: Session, clips: Clips, selected: set<int>, sels: seq<Selection>, i: nat)
    requires i <= |clips|
    ensures GrabbedCovered(s, clips, selected, sels, i, SelectGhostsFrom(s, clips, selected, sels, i))
    decreases |clips| - i
  {
    if i < |clips| {
      var here := GrabbedGhost(s, clips, selected, sels, i);
      var rest := SelectGhostsFrom(s, clips, selected, sels, i + 1);
      SelectGhostsFromComplete(s, clips, selected, sels, i + 1);
      var r := here + rest;
      forall j | i <= j < |clips| && GrabbedAt(s, clips, selected, sels, j)
        ensures exists k :: 0 <= k < |r| && r[k].clip == j
      {
        if j == i {
          assert r[0].clip == i;
        } else {
          var k :| 0 <= k < |rest| && rest[k].clip == j;
          assert r[|here| + k] == rest[k];
        }
      }
    }
  }

  /** One ghost per grabbed clip, in clip order: exactly the selected clips
      and, for the pointer tool, the clips one of whose transitions a
      selection covers exactly (rolling-tool pairing is not modelled). */
  function SelectGhosts(s: Session, clips: Clips, selected: set<int>, sels: seq<Selection>): (r: seq<Ghost>)
    ensures OnClips(clips, r)
    ensures forall k :: 0 <= k < |r| ==> GhostFor(s, clips, selected, sels, r[k])
    ensures forall k, l :: 0 <= k < l < |r| ==> r[k].clip < r[l].clip
    ensures forall j :: 0 <= j < |clips| ==>
      (GrabbedAt(s, clips, selected, sels, j) <==> exists k :: 0 <= k < |r| && r[k].clip == j)
  {
    var r := SelectGhostsFrom(s, clips, selected, sels, 0);
    SelectGhostsFromOrdered(s, clips, selected, sels, 0);
    SelectGhostsFromSound(s, clips, selected, sels, 0);
    SelectGhostsFromComplete(s, clips, selected, sels, 0);
    r
  }

  // ---------------------------------------------------------------------
  // Slide: the neighbours that touch a slid clip are trimmed along

  predicate IsGhostClip(gs: seq<Ghost>, j: int) {
    exists k | 0 <= k < |gs| :: gs[k].clip == j
  }

  /** Clip `c` touches the ghost clip `gc` from the right (`c` starts where
      `gc` ends) or from the left. */
  predicate Touches(c: Clip, gc: Clip) {
    c.timelineIn == gc.timelineOut || c.timelineOut == gc.timelineIn
  }

  /** The clip `j` is a slide neighbour of the ghost clip `gc`. */
  predicate Neighbour(clips: Clips, gs: seq<Ghost>, gc: Clip, j: int) {
    Present(clips, j) && clips[j].value.track == gc.track && !IsGhostClip(gs, j) && Touches(clips[j].value, gc)
  }

  /** `h` trims neighbour `h.clip` of `gc` at the edge they share. */
  predicate NeighbourGhost(clips: Clips, gs: seq<Ghost>, gc: Clip, h: Ghost) {
    && Neighbour(clips, gs, gc, h.clip)
    && h.trimming && h.transition == WholeClip
    && (h.trimIn <==> clips[h.clip].value.timelineIn == gc.timelineOut)
  }

  function NeighbourGhostAt(clips: Clips, gs: seq<Ghost>, gc: Clip, j: nat): seq<Ghost>
    requires j < |clips|
  {
    if Neighbour(clips, gs, gc, j) then [Blank(j, WholeClip, true, clips[j].value.timelineIn == gc.timelineOut)]
    else []
  }

  function NeighboursFrom(clips: Clips, gs: seq<Ghost>, gc: Clip, j: nat): seq<Ghost>
    requires j <= |clips|
    decreases |clips| - j
  {
    if j == |clips| then []
    else NeighbourGhostAt(clips, gs, gc, j) + NeighboursFrom(clips, gs, gc, j + 1)
  }

  /** `r` holds exactly the neighbours of `gc` from clip `j` on. */
  ghost predicate NeighboursExactly(clips: Clips, gs: seq<Ghost>, gc: Clip, j: nat, r: seq<Ghost>) {
    && (forall k :: 0 <= k < |r| ==> NeighbourGhost(clips, gs, gc, r[k]))
    && (forall m :: j <= m < |clips| && Neighbour(clips, gs, gc, m) ==> exists k :: 0 <= k < |r| && r[k].clip == m)
  }

  /** The ghost clip `j` contributes is a neighbour ghost, present
      exactly when `j` is a neighbour. */
  lemma NeighbourGhostAtExact(clips: Clips, gs: seq<Ghost>, gc: Clip, j: nat)
    requires j < |clips|
    ensures forall k :: 0 <= k < |NeighbourGhostAt(clips, gs, gc, j)| ==> NeighbourGhost(clips, gs, gc, NeighbourGhostAt(clips, gs, gc, j)[k])
    ensures Neighbour(clips, gs, gc, j) ==> |NeighbourGhostAt(clips, gs, gc, j)| == 1 && NeighbourGhostAt(clips, gs, gc, j)[0].clip == j
  {
  }

  lemma {:induction false} NeighboursFromSound(clips: Clips, gs: seq<Ghost>, gc: Clip, j: nat)
    requires j <= |clips|
    ensures forall k :: 0 <= k < |NeighboursFrom(clips, gs, gc, j)| ==> NeighbourGhost(clips, gs, gc, NeighboursFrom(clips, gs, gc, j)[k])
    decreases |clips| - j
  {
    if j < |clips| {
      var here := NeighbourGhostAt(clips, gs, gc, j);
      var rest := NeighboursFrom(clips, gs, gc, j + 1);
      NeighboursFromSound(clips, gs, gc, j + 1);
      NeighbourGhostAtExact(clips, gs, gc, j);
      var r := here + rest;
      assert forall k :: 0 <= k < |here| ==> r[k] == here[k];
      assert forall k :: |here| <= k < |r| ==> r[k] == rest[k - |here|];
    }
  }

  lemma {:induction false} NeighboursFromComplete(clips: Clips, gs: seq<Ghost>, gc: Clip, j: nat)
    requires j <= |clips|
    ensures forall m :: j <= m < |clips| && Neighbour(clips, gs, gc, m) ==>
              exists k :: 0 <= k < |NeighboursFrom(clips, gs, gc, j)| && NeighboursFrom(clips, gs, gc, j)[k].clip == m
    decreases |clips| - j
  {
    if j < |clips| {
      var here := NeighbourGhostAt(clips, gs, gc, j);
      var rest := NeighboursFrom(clips, gs, gc, j + 1);
      NeighboursFromComplete(clips, gs, gc, j + 1);
      NeighbourGhostAtExact(clips, gs, gc, j);
      var r := here + rest;
      assert r == NeighboursFrom(clips, gs, gc, j);
      forall m | j <= m < |clips| && Neighbour(clips, gs, gc, m)
        ensures exists k :: 0 <= k < |r| && r[k].clip == m
      {
        if m == j {
          assert r[0].clip == j;
        } else {
          var k :| 0 <= k < |rest| && rest[k].clip == m;
          assert r[|here| + k] == rest[k];
        }
      }
    }
  }

  /** From clip `j` on, the neighbour ghosts are exactly the touching,
      ghost-less clips of the track, each trimming the shared edge. */
  lemma NeighboursFromExact(clips: Clips, gs: seq<Ghost>, gc: Clip, j: nat)
    requires j <= |clips|
    ensures NeighboursExactly(clips, gs, gc, j, NeighboursFrom(clips, gs, gc, j))
  {
    NeighboursFromSound(clips, gs, gc, j);
    NeighboursFromComplete(clips, gs, gc, j);
  }

  /** `h` is a neighbour ghost of one of the slid ghosts. */
  predicate NeighbourOfSome(clips: Clips, gs: seq<Ghost>, h: Ghost)
    requires OnClips(clips, gs)
  {
    exists i :: 0 <= i < |gs| && NeighbourGhost(clips, gs, ClipOf(clips, gs[i]), h)
  }

  function NeighboursOfAll(clips: Clips, gs: seq<Ghost>, i: nat): seq<Ghost>
    requires i <= |gs|
    requires OnClips(clips, gs)
    decreases |gs| - i
  {
    if i == |gs| then []
    else NeighboursFrom(clips, gs, ClipOf(clips, gs[i]), 0) + NeighboursOfAll(clips, gs, i + 1)
  }

  ghost predicate NeighboursOfAllExactly(clips: Clips, gs: seq<Ghost>, i: nat, r: seq<Ghost>)
    requires OnClips(clips, gs)
  {
    && (forall k :: 0 <= k < |r| ==> NeighbourOfSome(clips, gs, r[k]))
    && (forall l, m :: i <= l < |gs| && Neighbour(clips, gs, ClipOf(clips, gs[l]), m) ==>
          exists k :: 0 <= k < |r| && r[k].clip == m)
  }

  lemma {:induction false} NeighboursOfAllExact(clips: Clips, gs: seq<Ghost>, i: nat)
    requires i <= |gs|
    requires OnClips(clips, gs)
    ensures NeighboursOfAllExactly(clips, gs, i, NeighboursOfAll(clips, gs, i))
    decreases |gs| - i
  {
    if i < |gs| {
      var here := NeighboursFrom(clips, gs, ClipOf(clips, gs[i]), 0);
      var rest := NeighboursOfAll(clips, gs, i + 1);
      NeighboursFromExact(clips, gs, ClipOf(clips, gs[i]), 0);
      NeighboursOfAllExact(clips, gs, i + 1);
      var r := here + rest;
      assert forall k :: |here| <= k < |r| ==> r[k] == rest[k - |here|];
      assert forall k :: 0 <= k < |here| ==> r[k] == here[k];
      forall l, m | i <= l < |gs| && Neighbour(clips, gs, ClipOf(clips, gs[l]), m)
        ensures exists k :: 0 <= k < |r| && r[k].clip == m
      {
        if l == i {
          var k :| 0 <= k < |here| && here[k].clip == m;
          assert r[k] == here[k];
        } else {
          var k :| 0 <= k < |rest| && rest[k].clip == m;
          assert r[|here| + k] == rest[k];
        }
      }
    }
  }

  /** The selected ghosts of a slide, no longer trimming. */
  function Slid(gs: seq<Ghost>): seq<Ghost> {
    seq(|gs|, k requires 0 <= k < |gs| => gs[k].(trimming := false))
  }

  /** Every neighbour of a slid clip is among the ghosts appended after the
      slid ones. */
  lemma SlideNeighboursAll(clips: Clips, gs: seq<Ghost>, r: seq<Ghost>)
    requires OnClips(clips, gs)
    requires r == Slid(gs) + NeighboursOfAll(clips, gs, 0)
    ensures forall l, m :: 0 <= l < |gs| && Neighbour(clips, gs, ClipOf(clips, gs[l]), m) ==>
              exists k :: |gs| <= k < |r| && r[k].clip == m
  {
    var extra := NeighboursOfAll(clips, gs, 0);
    NeighboursOfAllExact(clips, gs, 0);
    forall l, m | 0 <= l < |gs| && Neighbour(clips, gs, ClipOf(clips, gs[l]), m)
      ensures exists k :: |gs| <= k < |r| && r[k].clip == m
    {
      var k :| 0 <= k < |extra| && extra[k].clip == m;
      assert r[|gs| + k] == extra[k];
    }
  }

  /** The ghosts appended after the slid ones are all neighbours. */
  lemma SlideNeighboursOnly(clips: Clips, gs: seq<Ghost>, r: seq<Ghost>)
    requires OnClips(clips, gs)
    requires r == Slid(gs) + NeighboursOfAll(clips, gs, 0)
    ensures forall k :: |gs| <= k < |r| ==> NeighbourOfSome(clips, gs, r[k])
  {
    var extra := NeighboursOfAll(clips, gs, 0);
    NeighboursOfAllExact(clips, gs, 0);
    forall k | |gs| <= k < |r| ensures NeighbourOfSome(clips, gs, r[k]) {
      assert r[k] == extra[k - |gs|];
    }
  }

  /** The slide tool's ghosts: the slid clips stop trimming, and every other
      clip touching one of them on its track is trimmed along, at the edge
      it shares; nothing else is added. */
  function SlideNeighbours(clips: Clips, gs: seq<Ghost>): (r: seq<Ghost>)
    requires OnClips(clips, gs)
    ensures |r| >= |gs|
    ensures forall k :: 0 <= k < |gs| ==> r[k] == gs[k].(trimming := false)
    ensures forall k :: |gs| <= k < |r| ==> NeighbourOfSome(clips, gs, r[k])
    ensures forall l, m :: 0 <= l < |gs| && Neighbour(clips, gs, ClipOf(clips, gs[l]), m) ==>
      exists k :: |gs| <= k < |r| && r[k].clip == m
  {
    var r := Slid(gs) + NeighboursOfAll(clips, gs, 0);
    SlideNeighboursAll(clips, gs, r);
    SlideNeighboursOnly(clips, gs, r);
    r
  }

  // ---------------------------------------------------------------------
  // Drop from the project: ghost layout and linking

  /** A stream of a footage item: its index in the file and whether it is a
      still image (infinite length). */
  datatype SourceStream = SourceStream(fileIndex: int, infinite: bool)

  /** In/out marks (a footage item's marks or a sequence's work area),
      already converted to the target frame rate. */
  datatype Marks = NoMarks | Marks(markIn: int, markOut: int)

  /** An item dragged from the project. `source` identifies the media
      (the same media may be dragged twice, so two items can share it);
      lengths are in target frames. */
  datatype Item =
    | FootageItem(source: int, ready: bool, video: seq<SourceStream>, audio: seq<SourceStream>, length: int, marks: Marks)
    | SequenceItem(source: int, isTarget: bool, length: int, marks: Marks)
    | OtherItem(source: int)

  predicate Importable(item: Item) {
    match item
    case FootageItem(_, ready, _, _, _, _) => ready
    case SequenceItem(_, isTarget, length, _) => !isTarget && length != 0
    case OtherItem(_) => false
  }

  function DefaultIn(m: Marks): int {
    if m.Marks? then m.markIn else 0
  }

  predicate IsStill(item: Item) {
    item.FootageItem? && |item.video| > 0 && item.video[0].infinite && |item.audio| == 0
  }

  /** How far an importable item moves the entry point: 100 frames for a
      still image, otherwise the item's length, cut to its marks. */
  function Extent(item: Item): int {
    if !Importable(item) then 0
    else if IsStill(item) then 100
    else
      var length := item.length;
      var cut := if item.marks.Marks? then length - item.marks.markOut else 0;
      length - DefaultIn(item.marks) - cut
  }

  function DropGhost(media: int, id: int, entry: int, out: int, clipIn: int, track: int, stream: int): Ghost {
    Ghost(-1, WholeClip, entry, out, entry, out, clipIn, clipIn, track, track, false, false, 0, 0, media, stream, id)
  }

  /** The ghosts of item number `id` entering at `entry`: audio stream `j`
      on track `j`, then video stream `j` on track `-1-j`; a sequence on
      tracks -1 and 0. */
  function ItemGhosts(item: Item, id: int, entry: int): (r: seq<Ghost>)
    ensures forall k :: 0 <= k < |r| ==>
      && r[k].inFrame == entry && r[k].outFrame == entry + Extent(item)
      && r[k].mediaId == item.source && r[k].slot == id && r[k].clip == -1 && Anchored(r[k]) && !r[k].trimming
  {
    if !Importable(item) then []
    else
      var out := entry + Extent(item);
      var clipIn := DefaultIn(item.marks);
      match item
      case FootageItem(_, _, video, audio, _, _) =>
        seq(|audio|, j requires 0 <= j < |audio| => DropGhost(item.source, id, entry, out, clipIn, j, audio[j].fileIndex))
        + seq(|video|, j requires 0 <= j < |video| => DropGhost(item.source, id, entry, out, clipIn, -1 - j, video[j].fileIndex))
      case SequenceItem(_, _, _, _) =>
        [DropGhost(item.source, id, entry, out, clipIn, -1, 0), DropGhost(item.source, id, entry, out, clipIn, 0, 0)]
  }

  /** The stream a drop ghost on `track` plays. */
  predicate OnItsSide(item: Item, g: Ghost) {
    match item
    case FootageItem(_, _, video, audio, _, _) =>
      if g.track >= 0 then g.track < |audio| && g.mediaStream == audio[g.track].fileIndex
      else -1 - g.track < |video| && g.mediaStream == video[-1 - g.track].fileIndex
    case SequenceItem(_, _, _, _) => g.track == -1 || g.track == 0
    case OtherItem(_) => false
  }

  lemma ItemGhostsOnTheirSide(item: Item, id: int, entry: int)
    ensures forall k :: 0 <= k < |ItemGhosts(item, id, entry)| ==> OnItsSide(item, ItemGhosts(item, id, entry)[k])
    ensures |ItemGhosts(item, id, entry)| == if !Importable(item) then 0
                                            else if item.FootageItem? then |item.video| + |item.audio| else 2
  {
  }

  function LayoutFrom(items: seq<Item>, id: nat, entry: int): seq<Ghost>
    requires id <= |items|
    decreases |items| - id
  {
    if id == |items| then []
    else ItemGhosts(items[id], id, entry) + LayoutFrom(items, id + 1, entry + Extent(items[id]))
  }

  /** The drop's ghosts, items laid out one after another from `entry`. */
  function DropLayout(items: seq<Item>, entry: int): seq<Ghost> {
    LayoutFrom(items, 0, entry)
  }

  /** Where item `i` enters: after the extents of every earlier item. */
  function StartOf(items: seq<Item>, entry: int, i: nat): int
    requires i <= |items|
  {
    if i == 0 then entry else StartOf(items, entry, i - 1) + Extent(items[i - 1])
  }

  /** `g` is a ghost of an importable item, playing that item's media on
      the side of the stream it plays, spanning exactly the item's slot of
      the layout. */
  predicate LaidOut(items: seq<Item>, entry: int, g: Ghost) {
    && 0 <= g.slot < |items|
    && Importable(items[g.slot])
    && g.mediaId == items[g.slot].source
    && OnItsSide(items[g.slot], g)
    && g.inFrame == StartOf(items, entry, g.slot)
    && g.outFrame == StartOf(items, entry, g.slot + 1)
    && g.clip == -1 && Anchored(g) && !g.trimming
  }

  ghost predicate ItemOrder(id: int, r: seq<Ghost>) {
    && (forall k :: 0 <= k < |r| ==> id <= r[k].slot)
    && (forall k, l :: 0 <= k < l < |r| ==> r[k].slot <= r[l].slot)
  }

  lemma {:induction false} LayoutFromOrdered(items: seq<Item>, id: nat, entry: int)
    requires id <= |items|
    ensures ItemOrder(id, LayoutFrom(items, id, entry))
    decreases |items| - id
  {
    if id < |items| {
      var here := ItemGhosts(items[id], id, entry);
      var rest := LayoutFrom(items, id + 1, entry + Extent(items[id]));
      LayoutFromOrdered(items, id + 1, entry + Extent(items[id]));
      var r := here + rest;
      assert forall k :: |here| <= k < |r| ==> r[k] == rest[k - |here|];
      assert forall k :: 0 <= k < |here| ==> r[k].slot == id;
    }
  }

  ghost predicate AllLaidOut(items: seq<Item>, entry: int, r: seq<Ghost>) {
    forall k :: 0 <= k < |r| ==> LaidOut(items, entry, r[k])
  }

  lemma ItemGhostsLaidOut(items: seq<Item>, entry: int, id: nat)
    requires id < |items|
    ensures AllLaidOut(items, entry, ItemGhosts(items[id], id, StartOf(items, entry, id)))
  {
    var here := ItemGhosts(items[id], id, StartOf(items, entry, id));
    ItemGhostsOnTheirSide(items[id], id, StartOf(items, entry, id));
    assert StartOf(items, entry, id + 1) == StartOf(items, entry, id) + Extent(items[id]);
    if !Importable(items[id]) {
      assert here == [];
    }
  }

  lemma AllLaidOutConcat(items: seq<Item>, entry: int, a: seq<Ghost>, b: seq<Ghost>)
    requires AllLaidOut(items, entry, a) && AllLaidOut(items, entry, b)
    ensures AllLaidOut(items, entry, a + b)
  {
    assert forall k :: |a| <= k < |a + b| ==> (a + b)[k] == b[k - |a|];
  }

  lemma {:induction false} LayoutFromAbuts(items: seq<Item>, entry: int, id: nat)
    requires id <= |items|
    ensures AllLaidOut(items, entry, LayoutFrom(items, id, StartOf(items, entry, id)))
    decreases |items| - id
  {
    if id < |items| {
      var start := StartOf(items, entry, id);
      LayoutFromAbuts(items, entry, id + 1);
      ItemGhostsLaidOut(items, entry, id);
      assert StartOf(items, entry, id + 1) == start + Extent(items[id]);
      AllLaidOutConcat(items, entry, ItemGhosts(items[id], id, start), LayoutFrom(items, id + 1, start + Extent(items[id])));
    }
  }

  /** Successive media abut: every ghost of item `i` spans exactly
      `[StartOf(i), StartOf(i + 1))`, ghosts come in item order, each sits
      on the side of the stream it plays (audio at tracks >= 0, video below
      0), and all are anchored clip-less ghosts; ghosts of consecutive items
      touch. */
  lemma DropLayoutAbuts(items: seq<Item>, entry: int)
    ensures AllLaidOut(items, entry, DropLayout(items, entry))
    ensures ItemOrder(0, DropLayout(items, entry))
    ensures forall k, l ::
              (0 <= k < |DropLayout(items, entry)| && 0 <= l < |DropLayout(items, entry)|
               && DropLayout(items, entry)[l].slot == DropLayout(items, entry)[k].slot + 1) ==>
              DropLayout(items, entry)[l].inFrame == DropLayout(items, entry)[k].outFrame
  {
    LayoutFromAbuts(items, entry, 0);
    LayoutFromOrdered(items, 0, entry);
    var r := DropLayout(items, entry);
    forall k, l | 0 <= k < |r| && 0 <= l < |r| && r[l].slot == r[k].slot + 1
      ensures r[l].inFrame == r[k].outFrame
    {
      assert LaidOut(items, entry, r[k]) && LaidOut(items, entry, r[l]);
    }
  }

  /** One media dragged twice: the two items take two slots, one after the
      other, yet their ghosts carry the same media, so the clips a drop adds
      from them are linked to each other. */
  lemma TwiceDraggedShareMedia()
    ensures var a := FootageItem(7, true, [], [SourceStream(3, false)], 10, NoMarks);
      var r := DropLayout([a, a], 0);
      && |r| == 2
      && r[0].mediaId == r[1].mediaId == 7
      && r[0].slot == 0 && r[1].slot == 1
      && r[0].inFrame == 0 && r[0].outFrame == 10 == r[1].inFrame && r[1].outFrame == 20
  {
    var a := FootageItem(7, true, [], [SourceStream(3, false)], 10, NoMarks);
    assert Extent(a) == 10;
    assert ItemGhosts(a, 1, 10) == [DropGhost(7, 1, 10, 20, 0, 0, 3)];
    assert LayoutFrom([a, a], 1, 10) == ItemGhosts(a, 1, 10) + LayoutFrom([a, a], 2, 20);
    assert ItemGhosts(a, 0, 0) == [DropGhost(7, 0, 0, 10, 0, 0, 3)];
  }

  /** Links among the clips a drop adds: each clip lists, in order, every
      other added clip playing the same media. */
  method LinkDropped(media: seq<int>) returns (links: seq<seq<int>>)
    ensures |links| == |media|
    ensures forall i, j {:trigger j in links[i]} :: 0 <= i < |media| && 0 <= j < |media| ==>
              (j in links[i] <==> j != i && media[j] == media[i])
    ensures forall i :: 0 <= i < |links| ==> forall a, b :: 0 <= a < b < |links[i]| ==> links[i][a] < links[i][b]
    ensures forall i, j {:trigger j in links[i]} :: 0 <= i < |media| && 0 <= j < |media| ==> (j in links[i] <==> i in links[j])
    ensures forall i :: 0 <= i < |media| ==> i !in links[i]
  {
    links := [];
    var i := 0;
    while i < |media|
      invariant 0 <= i <= |media| && |links| == i
      invariant forall p, j {:trigger j in links[p]} :: 0 <= p < i && 0 <= j < |media| ==> (j in links[p] <==> j != p && media[j] == media[p])
      invariant forall p :: 0 <= p < i ==> forall a, b :: 0 <= a < b < |links[p]| ==> links[p][a] < links[p][b]
    {
      var mine: seq<int> := [];
      var j := 0;
      while j < |media|
        invariant 0 <= j <= |media|
        invariant forall q :: q in mine <==> 0 <= q < j && q != i && media[q] == media[i]
        invariant forall a, b :: 0 <= a < b < |mine| ==> mine[a] < mine[b]
        invariant forall a :: 0 <= a < |mine| ==> mine[a] < j
      {
        if j != i && media[j] == media[i] {
          mine := mine + [j];
        }
        j := j + 1;
      }
      assert forall p :: 0 <= p < i ==> (links + [mine])[p] == links[p];
      links := links + [mine];
      i := i + 1;
    }
  }
}
