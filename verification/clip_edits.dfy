/** The commands a commit emits for one clip and what they leave of it: the
    move of a clip after its ghost, the trimming of its transitions to the
    room that remains, and the room the transition tool makes for a new
    transition. `Replay` is the reference reading of a clip's own commands;
    the lemmas state the edited clip it produces. */
module ClipEdits {
  import opened Timeline

  // ---------------------------------------------------------------------
  // What a clip's own commands do to it

  function SetSide(c: Clip, side: Side, len: Option<int>): Clip {
    if side == Opening then c.(opening := len) else c.(closing := len)
  }

  function SideOf(c: Clip, side: Side): Option<int> {
    if side == Opening then c.opening else c.closing
  }

  /** The effect of one command on clip `i`; commands about other clips, and
      area deletions and ripples, leave it as it is. */
  function Step(c: Clip, i: int, x: Cmd): Clip {
    match x
    case MoveClip(j, tin, tout, cin, tr) =>
      if j == i then c.(timelineIn := tin, timelineOut := tout, clipIn := cin, track := tr) else c
    case AddTransition(j, side, len) => if j == i then SetSide(c, side, Some(len)) else c
    case ModifyTransition(j, side, len) => if j == i then SetSide(c, side, Some(len)) else c
    case DeleteTransition(j, side) => if j == i then SetSide(c, side, None) else c
    case _ => c
  }

  /** Clip `i` after the commands, first to last. */
  function Replay(c: Clip, i: int, cmds: seq<Cmd>): Clip
    decreases |cmds|
  {
    if cmds == [] then c else Replay(Step(c, i, cmds[0]), i, cmds[1..])
  }

  lemma {:induction false} ReplayConcat(c: Clip, i: int, a: seq<Cmd>, b: seq<Cmd>)
    ensures Replay(c, i, a + b) == Replay(Replay(c, i, a), i, b)
    decreases |a|
  {
    if a == [] {
      assert a + b == b;
    } else {
      assert (a + b)[0] == a[0];
      assert (a + b)[1..] == a[1..] + b;
      ReplayConcat(Step(c, i, a[0]), i, a[1..], b);
    }
  }

  lemma ReplayOne(c: Clip, i: int, x: Cmd)
    ensures Replay(c, i, [x]) == Step(c, i, x)
  {
    assert [x][1..] == [];
  }

  /** The transitions a clip carries are positive and fit side by side. */
  predicate TransitionsPositive(c: Clip) {
    && (c.opening.Some? ==> c.opening.value >= 1)
    && (c.closing.Some? ==> c.closing.value >= 1)
  }

  predicate TransitionsFit(c: Clip) {
    && TransitionsPositive(c)
    && (c.opening.Some? ==> c.opening.value <= c.Length())
    && (c.closing.Some? ==> c.closing.value <= c.Length())
    && (c.opening.Some? && c.closing.Some? ==> c.opening.value + c.closing.value <= c.Length())
  }

  // ---------------------------------------------------------------------
  // A moved or trimmed clip

  /** Delete the transition when no room is left, shorten it to the room
      when it is longer, leave it otherwise. */
  function Shrink(i: int, side: Side, len: int, room: int): seq<Cmd> {
    if room <= 0 then [DeleteTransition(i, side)]
    else if len > room then [ModifyTransition(i, side, room)]
    else []
  }

  /** The transitions of clip `c` cut down to a clip of `newLen` frames. On a
      trim of the in point the opening transition is served first, otherwise
      the closing one; the room of each is computed from the other's length
      before the edit. */
  function FitTransitions(c: Clip, i: int, newLen: int, trimInPoint: bool): seq<Cmd> {
    (if c.opening.Some? then
       Shrink(i, Opening, c.opening.value,
              newLen - (if c.closing.Some? && !trimInPoint then c.closing.value else 0))
     else [])
    + (if c.closing.Some? then
         Shrink(i, Closing, c.closing.value,
                newLen - (if c.opening.Some? && trimInPoint then c.opening.value else 0))
       else [])
  }

  /** The commands for a ghost of a whole clip: the clip follows the ghost's
      offsets from its anchor, then its transitions are fitted to the ghost's
      length. */
  function BodyCmds(c: Clip, i: int, g: Ghost, trimInPoint: bool): seq<Cmd> {
    [MoveClip(i, c.timelineIn + (g.inFrame - g.oldIn), c.timelineOut + (g.outFrame - g.oldOut),
              c.clipIn + (g.clipIn - g.oldClipIn), c.track + (g.track - g.oldTrack))]
    + FitTransitions(c, i, g.outFrame - g.inFrame, trimInPoint)
  }

  /** The ghost was seeded from this clip: its anchor is the clip's place. */
  predicate AnchoredAt(g: Ghost, c: Clip) {
    g.oldIn == c.timelineIn && g.oldOut == c.timelineOut && g.oldClipIn == c.clipIn && g.oldTrack == c.track
  }

  lemma ReplayShrink(c: Clip, i: int, side: Side, len: int, room: int)
    ensures SideOf(Replay(c, i, Shrink(i, side, len, room)), side) ==
            (if room <= 0 then None else if len > room then Some(room) else SideOf(c, side))
    ensures Replay(c, i, Shrink(i, side, len, room)) == SetSide(c, side, SideOf(Replay(c, i, Shrink(i, side, len, room)), side))
  {
    if room <= 0 {
      ReplayOne(c, i, DeleteTransition(i, side));
    } else if len > room {
      ReplayOne(c, i, ModifyTransition(i, side, room));
    }
  }

  /** The transitions of a clip after `FitTransitions`. */
  lemma ReplayFit(c: Clip, i: int, newLen: int, trimInPoint: bool)
    ensures var r := Replay(c, i, FitTransitions(c, i, newLen, trimInPoint));
      && r == c.(opening := r.opening, closing := r.closing)
      && (c.opening.None? ==> r.opening.None?)
      && (c.closing.None? ==> r.closing.None?)
      && (c.opening.Some? ==>
            var room := newLen - (if c.closing.Some? && !trimInPoint then c.closing.value else 0);
            r.opening == (if room <= 0 then None else if c.opening.value > room then Some(room) else c.opening))
      && (c.closing.Some? ==>
            var room := newLen - (if c.opening.Some? && trimInPoint then c.opening.value else 0);
            r.closing == (if room <= 0 then None else if c.closing.value > room then Some(room) else c.closing))
  {
    var a := if c.opening.Some? then
        Shrink(i, Opening, c.opening.value, newLen - (if c.closing.Some? && !trimInPoint then c.closing.value else 0))
      else [];
    var b := if c.closing.Some? then
        Shrink(i, Closing, c.closing.value, newLen - (if c.opening.Some? && trimInPoint then c.opening.value else 0))
      else [];
    ReplayConcat(c, i, a, b);
    var c1 := Replay(c, i, a);
    if c.opening.Some? {
      ReplayShrink(c, i, Opening, c.opening.value, newLen - (if c.closing.Some? && !trimInPoint then c.closing.value else 0));
    }
    if c.closing.Some? {
      ReplayShrink(c1, i, Closing, c.closing.value, newLen - (if c.opening.Some? && trimInPoint then c.opening.value else 0));
    }
  }

  /** After a move or trim, the clip sits where its ghost was shown, and
      whatever transitions it keeps are positive and fit in it together. */
  lemma BodyCommitFits(c: Clip, i: int, g: Ghost, trimInPoint: bool)
    requires AnchoredAt(g, c)
    requires g.outFrame - g.inFrame >= 1
    requires TransitionsPositive(c)
    ensures var r := Replay(c, i, BodyCmds(c, i, g, trimInPoint));
      && r.timelineIn == g.inFrame && r.timelineOut == g.outFrame
      && r.clipIn == g.clipIn && r.track == g.track
      && TransitionsFit(r)
  {
    var m := MoveClip(i, c.timelineIn + (g.inFrame - g.oldIn), c.timelineOut + (g.outFrame - g.oldOut),
                      c.clipIn + (g.clipIn - g.oldClipIn), c.track + (g.track - g.oldTrack));
    ReplayConcat(c, i, [m], FitTransitions(c, i, g.outFrame - g.inFrame, trimInPoint));
    ReplayOne(c, i, m);
    ReplayFit(Step(c, i, m), i, g.outFrame - g.inFrame, trimInPoint);
  }

  /** Transitions that already fit the new length are left alone. */
  lemma FittingTransitionsKept(c: Clip, i: int, newLen: int, trimInPoint: bool)
    requires TransitionsPositive(c)
    requires c.opening.Some? ==> c.opening.value <= newLen
    requires c.closing.Some? ==> c.closing.value <= newLen
    requires c.opening.Some? && c.closing.Some? ==> c.opening.value + c.closing.value <= newLen
    ensures FitTransitions(c, i, newLen, trimInPoint) == []
  {
  }

  // ---------------------------------------------------------------------
  // A moved transition

  /** The other transition of a clip whose transition became `newLen` long in
      a clip of `clipLen` frames: deleted when the new transition covers the
      clip, shortened when the two would overlap. */
  function SpareOther(i: int, other: Side, newLen: int, clipLen: int, otherLen: int): seq<Cmd> {
    if newLen >= clipLen then [DeleteTransition(i, other)]
    else if newLen > clipLen - otherLen then [ModifyTransition(i, other, clipLen - newLen)]
    else []
  }

  /** As written, the other transition is deleted only when the new one is
      exactly as long as the clip. */
  function SpareOtherAsWritten(i: int, other: Side, newLen: int, clipLen: int, otherLen: int): seq<Cmd> {
    if newLen == clipLen then [DeleteTransition(i, other)]
    else if newLen > clipLen - otherLen then [ModifyTransition(i, other, clipLen - newLen)]
    else []
  }

  function Spare(asWritten: bool, i: int, other: Side, newLen: int, clipLen: int, otherLen: int): seq<Cmd> {
    if asWritten then SpareOtherAsWritten(i, other, newLen, clipLen, otherLen)
    else SpareOther(i, other, newLen, clipLen, otherLen)
  }

  /** The commands for a transition ghost: the transition takes the ghost's
      length; a moved edge of an opening transition moves the clip's in point
      (and its source) with it, a moved edge of a closing one the out point;
      then room is made on the other side. */
  function TransitionGhostCmdsBy(asWritten: bool, c: Clip, i: int, g: Ghost): seq<Cmd> {
    var newLen := g.outFrame - g.inFrame;
    if g.transition == OpeningTransition then
      var move := if g.inFrame != g.oldIn then
          [MoveClip(i, c.timelineIn + (g.inFrame - g.oldIn), c.timelineOut, c.clipIn + (g.clipIn - g.oldClipIn), c.track)]
        else [];
      var clipLen := c.Length() - (g.inFrame - g.oldIn);
      [ModifyTransition(i, Opening, newLen)] + move
      + (if c.closing.Some? then Spare(asWritten, i, Closing, newLen, clipLen, c.closing.value) else [])
    else
      var move := if g.outFrame != g.oldOut then
          [MoveClip(i, c.timelineIn, c.timelineOut + (g.outFrame - g.oldOut), c.clipIn, c.track)]
        else [];
      var clipLen := c.Length() + (g.outFrame - g.oldOut);
      [ModifyTransition(i, Closing, newLen)] + move
      + (if c.opening.Some? then Spare(asWritten, i, Opening, newLen, clipLen, c.opening.value) else [])
  }

  function TransitionGhostCmds(c: Clip, i: int, g: Ghost): seq<Cmd> {
    TransitionGhostCmdsBy(false, c, i, g)
  }

  function TransitionGhostCmdsAsWritten(c: Clip, i: int, g: Ghost): seq<Cmd> {
    TransitionGhostCmdsBy(true, c, i, g)
  }

  /** The ghost was seeded from this clip's transition: the anchored edge is
      the clip's own edge. */
  predicate TransitionAnchoredAt(g: Ghost, c: Clip) {
    if g.transition == OpeningTransition then g.oldIn == c.timelineIn && g.oldClipIn == c.clipIn
    else g.oldOut == c.timelineOut
  }

  lemma ReplaySpare(asWritten: bool, c: Clip, i: int, other: Side, newLen: int, clipLen: int, otherLen: int)
    ensures var r := Replay(c, i, Spare(asWritten, i, other, newLen, clipLen, otherLen));
      && r == SetSide(c, other, SideOf(r, other))
      && SideOf(r, other) ==
         (if (if asWritten then newLen == clipLen else newLen >= clipLen) then None
          else if newLen > clipLen - otherLen then Some(clipLen - newLen)
          else SideOf(c, other))
  {
    var cmds := Spare(asWritten, i, other, newLen, clipLen, otherLen);
    if cmds != [] {
      ReplayOne(c, i, cmds[0]);
    }
  }

  /** What the commands of an opening-transition ghost leave of the clip. */
  lemma ReplayOpeningGhost(asWritten: bool, c: Clip, i: int, g: Ghost)
    requires g.transition == OpeningTransition
    requires TransitionAnchoredAt(g, c)
    ensures var r := Replay(c, i, TransitionGhostCmdsBy(asWritten, c, i, g));
      var newLen := g.outFrame - g.inFrame;
      && r.opening == Some(newLen)
      && r.timelineIn == g.inFrame && r.timelineOut == c.timelineOut
      && r.clipIn == (if g.inFrame != g.oldIn then g.clipIn else c.clipIn) && r.track == c.track
      && (c.closing.None? ==> r.closing.None?)
      && (c.closing.Some? ==> (r.closing ==
            (if (if asWritten then newLen == r.Length() else newLen >= r.Length()) then None
             else if newLen > r.Length() - c.closing.value then Some(r.Length() - newLen)
             else c.closing)))
  {
    var newLen := g.outFrame - g.inFrame;
    var first := ModifyTransition(i, Opening, newLen);
    var move := if g.inFrame != g.oldIn then
        [MoveClip(i, c.timelineIn + (g.inFrame - g.oldIn), c.timelineOut, c.clipIn + (g.clipIn - g.oldClipIn), c.track)]
      else [];
    var clipLen := c.Length() - (g.inFrame - g.oldIn);
    var spare := if c.closing.Some? then Spare(asWritten, i, Closing, newLen, clipLen, c.closing.value) else [];
    ReplayConcat(c, i, [first] + move, spare);
    ReplayConcat(c, i, [first], move);
    ReplayOne(c, i, first);
    var c1 := Step(c, i, first);
    if move != [] { ReplayOne(c1, i, move[0]); }
    var c2 := Replay(c1, i, move);
    assert c2.Length() == clipLen;
    if c.closing.Some? { ReplaySpare(asWritten, c2, i, Closing, newLen, clipLen, c.closing.value); }
  }

  /** What the commands of a closing-transition ghost leave of the clip. */
  lemma ReplayClosingGhost(asWritten: bool, c: Clip, i: int, g: Ghost)
    requires g.transition != OpeningTransition
    requires TransitionAnchoredAt(g, c)
    ensures var r := Replay(c, i, TransitionGhostCmdsBy(asWritten, c, i, g));
      var newLen := g.outFrame - g.inFrame;
      && r.closing == Some(newLen)
      && r.timelineIn == c.timelineIn && r.timelineOut == g.outFrame
      && r.clipIn == c.clipIn && r.track == c.track
      && (c.opening.None? ==> r.opening.None?)
      && (c.opening.Some? ==> (r.opening ==
            (if (if asWritten then newLen == r.Length() else newLen >= r.Length()) then None
             else if newLen > r.Length() - c.opening.value then Some(r.Length() - newLen)
             else c.opening)))
  {
    var newLen := g.outFrame - g.inFrame;
    var first := ModifyTransition(i, Closing, newLen);
    var move := if g.outFrame != g.oldOut then
        [MoveClip(i, c.timelineIn, c.timelineOut + (g.outFrame - g.oldOut), c.clipIn, c.track)]
      else [];
    var clipLen := c.Length() + (g.outFrame - g.oldOut);
    var spare := if c.opening.Some? then Spare(asWritten, i, Opening, newLen, clipLen, c.opening.value) else [];
    ReplayConcat(c, i, [first] + move, spare);
    ReplayConcat(c, i, [first], move);
    ReplayOne(c, i, first);
    var c1 := Step(c, i, first);
    if move != [] { ReplayOne(c1, i, move[0]); }
    var c2 := Replay(c1, i, move);
    assert c2.Length() == clipLen;
    if c.opening.Some? { ReplaySpare(asWritten, c2, i, Opening, newLen, clipLen, c.opening.value); }
  }

  /** What the transition-ghost commands leave of the clip. */
  lemma ReplayTransitionGhost(asWritten: bool, c: Clip, i: int, g: Ghost)
    requires TransitionAnchoredAt(g, c)
    ensures var r := Replay(c, i, TransitionGhostCmdsBy(asWritten, c, i, g));
      var newLen := g.outFrame - g.inFrame;
      if g.transition == OpeningTransition then
        && r.opening == Some(newLen)
        && r.timelineIn == g.inFrame && r.timelineOut == c.timelineOut
        && r.clipIn == (if g.inFrame != g.oldIn then g.clipIn else c.clipIn) && r.track == c.track
        && (c.closing.None? ==> r.closing.None?)
        && (c.closing.Some? ==> (r.closing ==
              (if (if asWritten then newLen == r.Length() else newLen >= r.Length()) then None
               else if newLen > r.Length() - c.closing.value then Some(r.Length() - newLen)
               else c.closing)))
      else
        && r.closing == Some(newLen)
        && r.timelineIn == c.timelineIn && r.timelineOut == g.outFrame
        && r.clipIn == c.clipIn && r.track == c.track
        && (c.opening.None? ==> r.opening.None?)
        && (c.opening.Some? ==> (r.opening ==
              (if (if asWritten then newLen == r.Length() else newLen >= r.Length()) then None
               else if newLen > r.Length() - c.opening.value then Some(r.Length() - newLen)
               else c.opening)))
  {
    if g.transition == OpeningTransition {
      ReplayOpeningGhost(asWritten, c, i, g);
    } else {
      ReplayClosingGhost(asWritten, c, i, g);
    }
  }

  /** After a transition ghost is committed, the transition has the ghost's
      length, the clip's dragged edge follows the ghost, and the clip's other
      transition is either gone or positive and clear of the new one. */
  lemma TransitionGhostSparesOther(c: Clip, i: int, g: Ghost)
    requires TransitionAnchoredAt(g, c)
    requires TransitionsPositive(c)
    ensures var r := Replay(c, i, TransitionGhostCmds(c, i, g));
      var newLen := g.outFrame - g.inFrame;
      && (g.transition == OpeningTransition ==>
            && r.opening == Some(newLen) && r.timelineIn == g.inFrame
            && (g.inFrame != g.oldIn ==> r.clipIn == g.clipIn)
            && (r.closing.Some? ==> r.closing.value >= 1 && newLen + r.closing.value <= r.Length()))
      && (g.transition != OpeningTransition ==>
            && r.closing == Some(newLen) && r.timelineOut == g.outFrame
            && (r.opening.Some? ==> r.opening.value >= 1 && newLen + r.opening.value <= r.Length()))
  {
    ReplayTransitionGhost(false, c, i, g);
  }

  /** The clip of the counterexample below: frames 0 to 100 with two 10-frame
      transitions, from a 1000-frame source. */
  function TwoTransitionClip(): Clip {
    Clip(0, 100, 0, 0, Footage(Stream(false)), 0, 1000, Some(10), Some(10), [])
  }

  /** Its opening transition's ghost moved 95 frames later by the pointer. */
  function LateOpeningGhost(): Ghost {
    Ghost(0, OpeningTransition, 95, 105, 0, 10, 95, 0, 0, 0, false, false, 10, 1000, 0, 0, 0)
  }

  /** As written, a transition ghost dragged past the far end of its clip
      leaves the clip's other transition with a negative length; the
      corrected commands delete it. */
  lemma NegativeTransitionLength()
    ensures TransitionAnchoredAt(LateOpeningGhost(), TwoTransitionClip())
    ensures TransitionsFit(TwoTransitionClip())
    ensures Replay(TwoTransitionClip(), 0, TransitionGhostCmdsAsWritten(TwoTransitionClip(), 0, LateOpeningGhost())).closing == Some(-5)
    ensures Replay(TwoTransitionClip(), 0, TransitionGhostCmds(TwoTransitionClip(), 0, LateOpeningGhost())).closing == None
  {
    ReplayTransitionGhost(true, TwoTransitionClip(), 0, LateOpeningGhost());
    ReplayTransitionGhost(false, TwoTransitionClip(), 0, LateOpeningGhost());
  }

  // ---------------------------------------------------------------------
  // The transition tool

  /** Room for a new transition over `[ts, te)`: the transition being
      replaced goes, and the other one is deleted or cut back so that it stays
      clear of the range. */
  function RoomCmds(c: Clip, i: int, side: Side, ts: int, te: int): seq<Cmd> {
    if side == Opening then
      (if c.opening.Some? then [DeleteTransition(i, Opening)] else [])
      + (if c.closing.Some? then
           if te >= c.timelineOut then [DeleteTransition(i, Closing)]
           else if te > c.timelineOut - c.closing.value then [ModifyTransition(i, Closing, c.timelineOut - te)]
           else []
         else [])
    else
      (if c.closing.Some? then [DeleteTransition(i, Closing)] else [])
      + (if c.opening.Some? then
           if ts <= c.timelineIn then [DeleteTransition(i, Opening)]
           else if ts < c.timelineIn + c.opening.value then [ModifyTransition(i, Opening, ts - c.timelineIn)]
           else []
         else [])
  }

  /** When `[ts, te)` reaches outside the clip, clear the part outside and
      extend the clip over it. */
  function ExtendCmds(c: Clip, i: int, ts: int, te: int): seq<Cmd> {
    if ts < c.timelineIn || te > c.timelineOut then
      [DeleteAreas([if ts < c.timelineIn then Area(ts, c.timelineIn, c.track) else Area(c.timelineOut, te, c.track)], []),
       MoveClip(i, if ts < c.timelineIn then ts else c.timelineIn, if te > c.timelineOut then te else c.timelineOut, c.clipIn, c.track)]
    else []
  }

  /** The commands for a transition drawn with the transition tool from `a`
      to `b` on clip `c`: make room, extend the clip over the drawn range and
      add the transition. Nothing when the range is empty. */
  function TransitionToolCmds(c: Clip, i: int, side: Side, a: int, b: int): seq<Cmd> {
    if a == b then []
    else
      var ts := if a < b then a else b;
      var te := if a < b then b else a;
      RoomCmds(c, i, side, ts, te) + ExtendCmds(c, i, ts, te) + [AddTransition(i, side, te - ts)]
  }

  /** The area cleared for a transition lies outside the clip. */
  lemma TransitionToolClearsOutside(c: Clip, i: int, side: Side, a: int, b: int)
    requires c.timelineIn <= c.timelineOut
    ensures forall x, k :: x in TransitionToolCmds(c, i, side, a, b) && x.DeleteAreas? && 0 <= k < |x.areas| ==>
      && x.areas[k].track == c.track && x.areas[k].inFrame < x.areas[k].outFrame
      && (x.areas[k].outFrame <= c.timelineIn || c.timelineOut <= x.areas[k].inFrame)
  {
  }

  lemma ReplayRoom(c: Clip, i: int, side: Side, ts: int, te: int)
    ensures var r := Replay(c, i, RoomCmds(c, i, side, ts, te));
      && r.timelineIn == c.timelineIn && r.timelineOut == c.timelineOut && r.clipIn == c.clipIn && r.track == c.track
      && SideOf(r, side).None?
      && (side == Opening ==>
            r.closing == (if c.closing.None? || te >= c.timelineOut then None
                          else if te > c.timelineOut - c.closing.value then Some(c.timelineOut - te)
                          else c.closing))
      && (side == Closing ==>
            r.opening == (if c.opening.None? || ts <= c.timelineIn then None
                          else if ts < c.timelineIn + c.opening.value then Some(ts - c.timelineIn)
                          else c.opening))
  {
    var room := RoomCmds(c, i, side, ts, te);
    var p := if side == Opening then (if c.opening.Some? then [DeleteTransition(i, Opening)] else [])
             else (if c.closing.Some? then [DeleteTransition(i, Closing)] else []);
    var q := room[|p|..];
    assert room == p + q;
    ReplayConcat(c, i, p, q);
    if p != [] { ReplayOne(c, i, p[0]); }
    if q != [] { ReplayOne(Replay(c, i, p), i, q[0]); }
  }

  lemma ReplayExtend(c: Clip, i: int, ts: int, te: int)
    ensures var r := Replay(c, i, ExtendCmds(c, i, ts, te));
      && r.timelineIn == (if ts < c.timelineIn then ts else c.timelineIn)
      && r.timelineOut == (if ts < c.timelineIn || te > c.timelineOut then (if te > c.timelineOut then te else c.timelineOut) else c.timelineOut)
      && r == c.(timelineIn := r.timelineIn, timelineOut := r.timelineOut)
  {
    var extend := ExtendCmds(c, i, ts, te);
    if extend != [] {
      assert extend == [extend[0]] + [extend[1]];
      ReplayConcat(c, i, [extend[0]], [extend[1]]);
      ReplayOne(c, i, extend[0]);
      ReplayOne(c, i, extend[1]);
    }
  }

  /** The transition tool's commands replay in three stages. */
  lemma ToolReplay(c: Clip, i: int, side: Side, a: int, b: int, ts: int, te: int)
    requires a != b
    requires ts == (if a < b then a else b) && te == (if a < b then b else a)
    ensures Replay(c, i, TransitionToolCmds(c, i, side, a, b))
      == Replay(Replay(Replay(c, i, RoomCmds(c, i, side, ts, te)), i, ExtendCmds(c, i, ts, te)), i, [AddTransition(i, side, te - ts)])
  {
    var room := RoomCmds(c, i, side, ts, te);
    var extend := ExtendCmds(c, i, ts, te);
    assert TransitionToolCmds(c, i, side, a, b) == room + extend + [AddTransition(i, side, te - ts)];
    ReplayConcat(c, i, room + extend, [AddTransition(i, side, te - ts)]);
    ReplayConcat(c, i, room, extend);
  }

  /** A transition drawn from `a` to `b` ends up on the clip with the drawn
      length; the clip covers the drawn range; the clip's other transition is
      either gone or positive and clear of the new one. */
  lemma TransitionToolMakesRoom(c: Clip, i: int, side: Side, a: int, b: int)
    requires a != b
    requires c.timelineIn <= c.timelineOut
    requires TransitionsPositive(c)
    ensures var r := Replay(c, i, TransitionToolCmds(c, i, side, a, b));
      var ts := if a < b then a else b;
      var te := if a < b then b else a;
      && SideOf(r, side) == Some(te - ts) && te - ts >= 1
      && r.timelineIn <= ts && te <= r.timelineOut
      && r.clipIn == c.clipIn && r.track == c.track
      && (side == Opening && r.closing.Some? ==> r.closing.value >= 1 && te <= r.timelineOut - r.closing.value)
      && (side == Closing && r.opening.Some? ==> r.opening.value >= 1 && r.timelineIn + r.opening.value <= ts)
  {
    var ts := if a < b then a else b;
    var te := if a < b then b else a;
    var room := RoomCmds(c, i, side, ts, te);
    var extend := ExtendCmds(c, i, ts, te);
    var add := AddTransition(i, side, te - ts);
    ToolReplay(c, i, side, a, b, ts, te);
    ReplayRoom(c, i, side, ts, te);
    var c1 := Replay(c, i, room);
    ReplayExtend(c1, i, ts, te);
    assert ExtendCmds(c1, i, ts, te) == extend;
    ReplayOne(Replay(c1, i, extend), i, add);
  }

  /** A transition drawn from the clip's own edge starts (opening) or ends
      (closing) at the edited clip's edge. */
  lemma TransitionToolFromEdge(c: Clip, i: int, side: Side, a: int, b: int)
    requires a != b
    requires side == Opening ==> a == c.timelineIn
    requires side == Closing ==> b == c.timelineOut
    ensures var r := Replay(c, i, TransitionToolCmds(c, i, side, a, b));
      var ts := if a < b then a else b;
      var te := if a < b then b else a;
      (side == Opening ==> r.timelineIn == ts) && (side == Closing ==> r.timelineOut == te)
  {
    var ts := if a < b then a else b;
    var te := if a < b then b else a;
    var room := RoomCmds(c, i, side, ts, te);
    var extend := ExtendCmds(c, i, ts, te);
    var add := AddTransition(i, side, te - ts);
    ToolReplay(c, i, side, a, b, ts, te);
    ReplayRoom(c, i, side, ts, te);
    var c1 := Replay(c, i, room);
    ReplayExtend(c1, i, ts, te);
    assert ExtendCmds(c1, i, ts, te) == extend;
    ReplayOne(Replay(c1, i, extend), i, add);
  }
}
