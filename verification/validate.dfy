/** The validation pass of `update_ghosts`: given the proposed frame
    difference of a drag (already snapped) and the proposed track difference,
    walk the ghosts in order and pull the differences back so that every
    ghost stays legal for the active tool. The per-ghost functions follow the
    source statement by statement; `GhostBounds` restates each of them as a
    list of one-sided bounds, and the lemmas connect the two. */
module Validate {
  import opened Timeline
  import opened Clamps

  datatype Tool = PointerTool | EditTool | RippleTool | RazorTool | SlipTool | RollingTool | SlideTool | TransitionTool

  /** The parts of the timeline's gesture state the edit engine reads. */
  datatype Session = Session(
    tool: Tool,
    creating: bool,
    importing: bool,
    trimTarget: int,
    trimInPoint: bool,
    transitionSelect: Part,
    transitionToolType: Side,
    dragTrackStart: int,
    videoGhosts: bool,
    audioGhosts: bool)

  predicate ClipsMovable(s: Session) {
    s.tool == PointerTool || s.tool == SlideTool || s.importing
  }

  /** Which group of checks a ghost goes through, in the source's order of tests. */
  datatype Check = NoCheck | SlipCheck | TrimCheck | MoveCheck | TransitionCheck

  function CheckOf(s: Session, g: Ghost): Check {
    if s.creating then NoCheck
    else if s.tool == SlipTool then SlipCheck
    else if g.trimming then TrimCheck
    else if ClipsMovable(s) then MoveCheck
    else if s.tool == TransitionTool then TransitionCheck
    else NoCheck
  }

  /** A clip of the ripple pre/post lists with its index (the source compares
      these lists' entries by identity). */
  datatype Placed = Placed(index: int, clip: Clip)

  predicate GhostBounded(clips: Clips, g: Ghost) {
    ClipAt(clips, g.clip).Some? && Bounded(ClipAt(clips, g.clip).value)
  }

  // ---------------------------------------------------------------------
  // The checks as written

  /** Slip: keep `clip_in` at or above 0 and the clip's end inside the
      media. The second test reuses the first `validator` value. */
  function SlipClamp(g: Ghost, bounded: bool, d: int): int {
    if !bounded then d
    else
      var v := g.oldClipIn - d;
      var d1 := if v < 0 then d + v else d;
      var v2 := v + g.ghostLength;
      if v2 > g.mediaLength then d1 + (v2 - g.mediaLength) else d1
  }

  /** Trimming the in point: at least one frame long, not before frame 0,
      and `clip_in` not below 0 when the source is finite. */
  function TrimInClamp(g: Ghost, bounded: bool, d: int): int {
    var v1 := g.ghostLength - d;
    var d1 := if v1 < 1 then d - (1 - v1) else d;
    var v2 := g.oldIn + d1;
    var d2 := if v2 < 0 then d1 - v2 else d1;
    if bounded then
      var v3 := g.oldClipIn + d2;
      if v3 < 0 then d2 - v3 else d2
    else d2
  }

  /** Trimming the out point: at least one frame long, and not past the
      media's end when the source is finite. */
  function TrimOutClamp(g: Ghost, bounded: bool, d: int): int {
    var v1 := g.ghostLength + d;
    var d1 := if v1 < 1 then d + (1 - v1) else d;
    if bounded then
      var v2 := g.oldClipIn + g.ghostLength + d1;
      if v2 > g.mediaLength then d1 - (v2 - g.mediaLength) else d1
    else d1
  }

  /** Ripple: the post clip `p` must not run into any pre clip on its track. */
  function PreClamp(pre: seq<Placed>, p: Placed, trimInPoint: bool, d: int): int
    decreases |pre|
  {
    if pre == [] then d
    else
      var q := pre[0];
      var d1 :=
        if q.index != p.index && q.clip.track == p.clip.track then
          if trimInPoint then
            var v := p.clip.timelineIn - d - q.clip.timelineOut;
            if v < 0 then d + v else d
          else
            var v := p.clip.timelineIn + d - q.clip.timelineOut;
            if v < 0 then d - v else d
        else d;
      PreClamp(pre[1..], p, trimInPoint, d1)
  }

  /** Ripple: every post clip stays at or after frame 0 (for an in-point
      trim) and clear of the pre clips. */
  function RippleClamp(pre: seq<Placed>, post: seq<Placed>, trimInPoint: bool, d: int): int
    decreases |post|
  {
    if post == [] then d
    else
      var p := post[0];
      var d1 :=
        if trimInPoint then
          var v := p.clip.timelineIn - d;
          if v < 0 then d + v else d
        else d;
      RippleClamp(pre, post[1..], trimInPoint, PreClamp(pre, p, trimInPoint, d1))
  }

  /** Moving: not before frame 0; a moved transition also keeps its clip's
      `clip_in` inside a finite source. */
  function MoveClamp(g: Ghost, bounded: bool, d: int): int {
    var v1 := g.oldIn + d;
    var d1 := if v1 < 0 then d - v1 else d;
    if g.transition != WholeClip && bounded then
      var v2 := g.oldClipIn + d1;
      var d2 := if v2 < 0 then d1 - v2 else d1;
      var v3 := g.oldClipIn + g.ghostLength + d2;
      if v3 > g.mediaLength then d2 - (v3 - g.mediaLength) else d2
    else d1
  }

  /** Transition tool: the edge being dragged stays on the timeline and inside
      the clip's media. The media tests reuse a stale `validator` value. */
  function TransitionToolClamp(c: Clip, side: Side, d: int): int {
    if side == Opening then
      var v1 := c.timelineIn + d;
      var d1 := if v1 < 0 then d - v1 else d;
      var v2 := c.clipIn + d1;
      var d2 := if v2 < 0 then d1 - v2 else d1;
      if v2 > c.maxLength then d2 - (v2 - c.maxLength) else d2
    else
      var v1 := c.clipIn + c.Length() + d;
      var d1 := if v1 > c.maxLength then d - (v1 - c.maxLength) else d;
      var d2 := if v1 < 0 then d1 - v1 else d1;
      var v3 := c.timelineOut + d2;
      if v3 < 0 then d2 - v3 else d2
  }

  /** All checks for one ghost. */
  function GhostClamp(s: Session, clips: Clips, pre: seq<Placed>, post: seq<Placed>, g: Ghost, d: int): int {
    match CheckOf(s, g)
    case NoCheck => d
    case SlipCheck => SlipClamp(g, GhostBounded(clips, g), d)
    case TrimCheck =>
      var d1 := if g.trimIn then TrimInClamp(g, GhostBounded(clips, g), d) else TrimOutClamp(g, GhostBounded(clips, g), d);
      if s.tool == RippleTool then RippleClamp(pre, post, s.trimInPoint, d1) else d1
    case MoveCheck => MoveClamp(g, GhostBounded(clips, g), d)
    case TransitionCheck =>
      match ClipAt(clips, g.clip)
      case Some(c) => TransitionToolClamp(c, s.transitionToolType, d)
      case None => d
  }

  /** The frame difference after the checks of every ghost, in order. */
  function ValidateFrame(s: Session, clips: Clips, pre: seq<Placed>, post: seq<Placed>, ghosts: seq<Ghost>, d: int): int
    decreases |ghosts|
  {
    if ghosts == [] then d
    else ValidateFrame(s, clips, pre, post, ghosts[1..], GhostClamp(s, clips, pre, post, ghosts[0], d))
  }

  // ---------------------------------------------------------------------
  // What each check demands, stated on the ghost

  predicate TrimLegal(g: Ghost, bounded: bool, d: int) {
    if g.trimIn then
      && g.ghostLength - d >= 1
      && g.oldIn + d >= 0
      && (bounded ==> g.oldClipIn + d >= 0)
    else
      && g.ghostLength + d >= 1
      && (bounded ==> g.oldClipIn + g.ghostLength + d <= g.mediaLength)
  }

  /** No pre clip on `p`'s track (other than `p` itself) ends after `p`'s
      rippled start. */
  predicate PreLegal(pre: seq<Placed>, p: Placed, trimInPoint: bool, d: int) {
    forall k :: 0 <= k < |pre| && pre[k].index != p.index && pre[k].clip.track == p.clip.track ==>
      if trimInPoint then p.clip.timelineIn - d >= pre[k].clip.timelineOut
      else p.clip.timelineIn + d >= pre[k].clip.timelineOut
  }

  predicate RippleLegal(pre: seq<Placed>, post: seq<Placed>, trimInPoint: bool, d: int) {
    forall j :: 0 <= j < |post| ==>
      && (trimInPoint ==> post[j].clip.timelineIn - d >= 0)
      && PreLegal(pre, post[j], trimInPoint, d)
  }

  predicate MoveLegal(g: Ghost, bounded: bool, d: int) {
    && g.oldIn + d >= 0
    && (g.transition != WholeClip && bounded ==>
          g.oldClipIn + d >= 0 && g.oldClipIn + g.ghostLength + d <= g.mediaLength)
  }

  predicate SlipLegal(g: Ghost, bounded: bool, d: int) {
    bounded ==> 0 <= g.oldClipIn - d && g.oldClipIn - d + g.ghostLength <= g.mediaLength
  }

  predicate TransitionToolLegal(c: Clip, side: Side, d: int) {
    if side == Opening then
      c.timelineIn + d >= 0 && 0 <= c.clipIn + d <= c.maxLength
    else
      0 <= c.clipIn + c.Length() + d <= c.maxLength && c.timelineOut + d >= 0
  }

  predicate GhostLegal(s: Session, clips: Clips, pre: seq<Placed>, post: seq<Placed>, g: Ghost, d: int) {
    match CheckOf(s, g)
    case NoCheck => true
    case SlipCheck => SlipLegal(g, GhostBounded(clips, g), d)
    case TrimCheck =>
      TrimLegal(g, GhostBounded(clips, g), d) && (s.tool == RippleTool ==> RippleLegal(pre, post, s.trimInPoint, d))
    case MoveCheck => MoveLegal(g, GhostBounded(clips, g), d)
    case TransitionCheck =>
      ClipAt(clips, g.clip).Some? ==> TransitionToolLegal(ClipAt(clips, g.clip).value, s.transitionToolType, d)
  }

  predicate AllLegal(s: Session, clips: Clips, pre: seq<Placed>, post: seq<Placed>, ghosts: seq<Ghost>, d: int) {
    forall i :: 0 <= i < |ghosts| ==> GhostLegal(s, clips, pre, post, ghosts[i], d)
  }

  /** Some frame difference makes every ghost legal at once. */
  ghost predicate Satisfiable(s: Session, clips: Clips, pre: seq<Placed>, post: seq<Placed>, ghosts: seq<Ghost>) {
    exists d :: AllLegal(s, clips, pre, post, ghosts, d)
  }

  /** The two stale-`validator` checks behave as one-sided clamps: a slipped
      clip is not longer than its media, and a clip's maximum length is not
      negative. */
  predicate Regular(s: Session, clips: Clips, g: Ghost) {
    && (CheckOf(s, g) == SlipCheck && GhostBounded(clips, g) ==> g.ghostLength <= g.mediaLength)
    && (CheckOf(s, g) == TransitionCheck && ClipAt(clips, g.clip).Some? ==> ClipAt(clips, g.clip).value.maxLength >= 0)
  }

  predicate AllRegular(s: Session, clips: Clips, ghosts: seq<Ghost>) {
    forall i :: 0 <= i < |ghosts| ==> Regular(s, clips, ghosts[i])
  }

  // ---------------------------------------------------------------------
  // The same checks as lists of one-sided bounds

  function SlipBounds(g: Ghost, bounded: bool): seq<Bound> {
    if bounded then [AtMost(g.oldClipIn), AtLeast(g.oldClipIn + g.ghostLength - g.mediaLength)] else []
  }

  function TrimInBounds(g: Ghost, bounded: bool): seq<Bound> {
    [AtMost(g.ghostLength - 1), AtLeast(-g.oldIn)] + (if bounded then [AtLeast(-g.oldClipIn)] else [])
  }

  function TrimOutBounds(g: Ghost, bounded: bool): seq<Bound> {
    [AtLeast(1 - g.ghostLength)] + (if bounded then [AtMost(g.mediaLength - g.oldClipIn - g.ghostLength)] else [])
  }

  function PreBound(q: Placed, p: Placed, trimInPoint: bool): Bound {
    if trimInPoint then AtMost(p.clip.timelineIn - q.clip.timelineOut)
    else AtLeast(q.clip.timelineOut - p.clip.timelineIn)
  }

  function PreBounds(pre: seq<Placed>, p: Placed, trimInPoint: bool): seq<Bound>
    decreases |pre|
  {
    if pre == [] then []
    else
      (if pre[0].index != p.index && pre[0].clip.track == p.clip.track then [PreBound(pre[0], p, trimInPoint)] else [])
      + PreBounds(pre[1..], p, trimInPoint)
  }

  function PostBounds(pre: seq<Placed>, p: Placed, trimInPoint: bool): seq<Bound> {
    (if trimInPoint then [AtMost(p.clip.timelineIn)] else []) + PreBounds(pre, p, trimInPoint)
  }

  function RippleBounds(pre: seq<Placed>, post: seq<Placed>, trimInPoint: bool): seq<Bound>
    decreases |post|
  {
    if post == [] then []
    else PostBounds(pre, post[0], trimInPoint) + RippleBounds(pre, post[1..], trimInPoint)
  }

  function MoveBounds(g: Ghost, bounded: bool): seq<Bound> {
    [AtLeast(-g.oldIn)]
    + (if g.transition != WholeClip && bounded
       then [AtLeast(-g.oldClipIn), AtMost(g.mediaLength - g.oldClipIn - g.ghostLength)]
       else [])
  }

  function TransitionToolBounds(c: Clip, side: Side): seq<Bound> {
    if side == Opening then
      [AtLeast(-c.timelineIn), AtLeast(-c.clipIn), AtMost(c.maxLength - c.clipIn)]
    else
      [AtMost(c.maxLength - c.clipIn - c.Length()), AtLeast(-(c.clipIn + c.Length())), AtLeast(-c.timelineOut)]
  }

  function GhostBounds(s: Session, clips: Clips, pre: seq<Placed>, post: seq<Placed>, g: Ghost): seq<Bound> {
    match CheckOf(s, g)
    case NoCheck => []
    case SlipCheck => SlipBounds(g, GhostBounded(clips, g))
    case TrimCheck =>
      (if g.trimIn then TrimInBounds(g, GhostBounded(clips, g)) else TrimOutBounds(g, GhostBounded(clips, g)))
      + (if s.tool == RippleTool then RippleBounds(pre, post, s.trimInPoint) else [])
    case MoveCheck => MoveBounds(g, GhostBounded(clips, g))
    case TransitionCheck =>
      match ClipAt(clips, g.clip)
      case Some(c) => TransitionToolBounds(c, s.transitionToolType)
      case None => []
  }

  function AllBounds(s: Session, clips: Clips, pre: seq<Placed>, post: seq<Placed>, ghosts: seq<Ghost>): seq<Bound>
    decreases |ghosts|
  {
    if ghosts == [] then []
    else GhostBounds(s, clips, pre, post, ghosts[0]) + AllBounds(s, clips, pre, post, ghosts[1..])
  }

  // ---------------------------------------------------------------------
  // The checks as written are exactly the bound lists

  lemma {:induction false} PreClampIsClampAll(pre: seq<Placed>, p: Placed, trimInPoint: bool, d: int)
    ensures PreClamp(pre, p, trimInPoint, d) == ClampAll(d, PreBounds(pre, p, trimInPoint))
    decreases |pre|
  {
    if pre != [] {
      var head := if pre[0].index != p.index && pre[0].clip.track == p.clip.track then [PreBound(pre[0], p, trimInPoint)] else [];
      ClampAllAppend(d, head, PreBounds(pre[1..], p, trimInPoint));
      PreClampIsClampAll(pre[1..], p, trimInPoint, ClampAll(d, head));
    }
  }

  lemma {:induction false} RippleClampIsClampAll(pre: seq<Placed>, post: seq<Placed>, trimInPoint: bool, d: int)
    ensures RippleClamp(pre, post, trimInPoint, d) == ClampAll(d, RippleBounds(pre, post, trimInPoint))
    decreases |post|
  {
    if post != [] {
      var p := post[0];
      var head := if trimInPoint then [AtMost(p.clip.timelineIn)] else [];
      ClampAllAppend(d, PostBounds(pre, p, trimInPoint), RippleBounds(pre, post[1..], trimInPoint));
      ClampAllAppend(d, head, PreBounds(pre, p, trimInPoint));
      PreClampIsClampAll(pre, p, trimInPoint, ClampAll(d, head));
      RippleClampIsClampAll(pre, post[1..], trimInPoint, ClampAll(d, PostBounds(pre, p, trimInPoint)));
    }
  }

  lemma TrimClampIsClampAll(g: Ghost, bounded: bool, d: int)
    ensures g.trimIn ==> TrimInClamp(g, bounded, d) == ClampAll(d, TrimInBounds(g, bounded))
    ensures !g.trimIn ==> TrimOutClamp(g, bounded, d) == ClampAll(d, TrimOutBounds(g, bounded))
  {
    if g.trimIn {
      var bs := TrimInBounds(g, bounded);
      if bounded {
        assert bs == [bs[0], bs[1], bs[2]];
        ClampAllThree(d, bs[0], bs[1], bs[2]);
      } else {
        assert bs == [bs[0], bs[1]];
        ClampAllTwo(d, bs[0], bs[1]);
      }
    } else {
      var bs := TrimOutBounds(g, bounded);
      if bounded {
        assert bs == [bs[0], bs[1]];
        ClampAllTwo(d, bs[0], bs[1]);
      } else {
        assert bs[1..] == [];
      }
    }
  }

  lemma SlipClampIsClampAll(g: Ghost, bounded: bool, d: int)
    requires bounded ==> g.ghostLength <= g.mediaLength
    ensures SlipClamp(g, bounded, d) == ClampAll(d, SlipBounds(g, bounded))
  {
    if bounded {
      var bs := SlipBounds(g, bounded);
      ClampAllTwo(d, bs[0], bs[1]);
    }
  }

  lemma MoveClampIsClampAll(g: Ghost, bounded: bool, d: int)
    ensures MoveClamp(g, bounded, d) == ClampAll(d, MoveBounds(g, bounded))
  {
    var bs := MoveBounds(g, bounded);
    if g.transition != WholeClip && bounded {
      ClampAllThree(d, bs[0], bs[1], bs[2]);
    } else {
      assert bs[1..] == [];
    }
  }

  lemma TransitionToolClampIsClampAll(c: Clip, side: Side, d: int)
    requires c.maxLength >= 0
    ensures TransitionToolClamp(c, side, d) == ClampAll(d, TransitionToolBounds(c, side))
  {
    var bs := TransitionToolBounds(c, side);
    ClampAllThree(d, bs[0], bs[1], bs[2]);
  }

  lemma TrimCheckIsClampAll(s: Session, g: Ghost, bounded: bool, pre: seq<Placed>, post: seq<Placed>, d: int)
    ensures
      var d1 := if g.trimIn then TrimInClamp(g, bounded, d) else TrimOutClamp(g, bounded, d);
      (if s.tool == RippleTool then RippleClamp(pre, post, s.trimInPoint, d1) else d1)
      == ClampAll(d, (if g.trimIn then TrimInBounds(g, bounded) else TrimOutBounds(g, bounded))
                     + (if s.tool == RippleTool then RippleBounds(pre, post, s.trimInPoint) else []))
  {
    var own := if g.trimIn then TrimInBounds(g, bounded) else TrimOutBounds(g, bounded);
    var ripple := if s.tool == RippleTool then RippleBounds(pre, post, s.trimInPoint) else [];
    ClampAllAppend(d, own, ripple);
    TrimClampIsClampAll(g, bounded, d);
    if s.tool == RippleTool {
      RippleClampIsClampAll(pre, post, s.trimInPoint, ClampAll(d, own));
    }
  }

  /** Each ghost's checks, including the two that reuse a stale value, are
      the chain of its one-sided bounds. */
  lemma GhostClampIsClampAll(s: Session, clips: Clips, pre: seq<Placed>, post: seq<Placed>, g: Ghost, d: int)
    requires Regular(s, clips, g)
    ensures GhostClamp(s, clips, pre, post, g, d) == ClampAll(d, GhostBounds(s, clips, pre, post, g))
  {
    var bounded := GhostBounded(clips, g);
    match CheckOf(s, g)
    case NoCheck =>
    case SlipCheck => SlipClampIsClampAll(g, bounded, d);
    case TrimCheck => TrimCheckIsClampAll(s, g, bounded, pre, post, d);
    case MoveCheck => MoveClampIsClampAll(g, bounded, d);
    case TransitionCheck =>
      match ClipAt(clips, g.clip)
      case Some(c) => TransitionToolClampIsClampAll(c, s.transitionToolType, d);
      case None =>
  }

  lemma {:induction false} ValidateFrameIsClampAll(s: Session, clips: Clips, pre: seq<Placed>, post: seq<Placed>, ghosts: seq<Ghost>, d: int)
    requires AllRegular(s, clips, ghosts)
    ensures ValidateFrame(s, clips, pre, post, ghosts, d) == ClampAll(d, AllBounds(s, clips, pre, post, ghosts))
    decreases |ghosts|
  {
    if ghosts != [] {
      var own := GhostBounds(s, clips, pre, post, ghosts[0]);
      GhostClampIsClampAll(s, clips, pre, post, ghosts[0], d);
      ClampAllAppend(d, own, AllBounds(s, clips, pre, post, ghosts[1..]));
      assert AllRegular(s, clips, ghosts[1..]) by {
        forall i | 0 <= i < |ghosts[1..]| ensures Regular(s, clips, ghosts[1..][i]) {
          assert ghosts[1..][i] == ghosts[i + 1];
        }
      }
      ValidateFrameIsClampAll(s, clips, pre, post, ghosts[1..], ClampAll(d, own));
    }
  }

  // ---------------------------------------------------------------------
  // Legality is exactly meeting the bounds

  lemma {:induction false} PreLegalIffMeets(pre: seq<Placed>, p: Placed, trimInPoint: bool, d: int)
    ensures PreLegal(pre, p, trimInPoint, d) <==> MeetsAll(d, PreBounds(pre, p, trimInPoint))
    decreases |pre|
  {
    if pre != [] {
      var head := if pre[0].index != p.index && pre[0].clip.track == p.clip.track then [PreBound(pre[0], p, trimInPoint)] else [];
      PreLegalIffMeets(pre[1..], p, trimInPoint, d);
      MeetsAllConcat(d, head, PreBounds(pre[1..], p, trimInPoint));
      if PreLegal(pre, p, trimInPoint, d) {
        forall k | 0 <= k < |pre[1..]| && pre[1..][k].index != p.index && pre[1..][k].clip.track == p.clip.track
          ensures if trimInPoint then p.clip.timelineIn - d >= pre[1..][k].clip.timelineOut
                  else p.clip.timelineIn + d >= pre[1..][k].clip.timelineOut
        {
          assert pre[1..][k] == pre[k + 1];
        }
        assert PreLegal(pre[1..], p, trimInPoint, d);
      }
      if MeetsAll(d, PreBounds(pre, p, trimInPoint)) {
        forall k | 0 <= k < |pre| && pre[k].index != p.index && pre[k].clip.track == p.clip.track
          ensures if trimInPoint then p.clip.timelineIn - d >= pre[k].clip.timelineOut
                  else p.clip.timelineIn + d >= pre[k].clip.timelineOut
        {
          if k == 0 {
            assert Meets(d, head[0]);
          } else {
            assert pre[k] == pre[1..][k - 1];
          }
        }
      }
    }
  }

  lemma {:induction false} RippleLegalIffMeets(pre: seq<Placed>, post: seq<Placed>, trimInPoint: bool, d: int)
    ensures RippleLegal(pre, post, trimInPoint, d) <==> MeetsAll(d, RippleBounds(pre, post, trimInPoint))
    decreases |post|
  {
    if post != [] {
      var p := post[0];
      var head := if trimInPoint then [AtMost(p.clip.timelineIn)] else [];
      RippleLegalIffMeets(pre, post[1..], trimInPoint, d);
      PreLegalIffMeets(pre, p, trimInPoint, d);
      MeetsAllConcat(d, PostBounds(pre, p, trimInPoint), RippleBounds(pre, post[1..], trimInPoint));
      MeetsAllConcat(d, head, PreBounds(pre, p, trimInPoint));
      if RippleLegal(pre, post, trimInPoint, d) {
        forall j | 0 <= j < |post[1..]|
          ensures && (trimInPoint ==> post[1..][j].clip.timelineIn - d >= 0)
                  && PreLegal(pre, post[1..][j], trimInPoint, d)
        {
          assert post[1..][j] == post[j + 1];
        }
      }
      if MeetsAll(d, RippleBounds(pre, post, trimInPoint)) {
        forall j | 0 <= j < |post|
          ensures && (trimInPoint ==> post[j].clip.timelineIn - d >= 0)
                  && PreLegal(pre, post[j], trimInPoint, d)
        {
          if j == 0 {
            if trimInPoint { assert Meets(d, head[0]); }
          } else {
            assert post[j] == post[1..][j - 1];
          }
        }
      }
    }
  }

  /** A ghost is legal for its tool exactly when the difference meets its bounds. */
  lemma GhostLegalIffMeets(s: Session, clips: Clips, pre: seq<Placed>, post: seq<Placed>, g: Ghost, d: int)
    ensures GhostLegal(s, clips, pre, post, g, d) <==> MeetsAll(d, GhostBounds(s, clips, pre, post, g))
  {
    var bounded := GhostBounded(clips, g);
    match CheckOf(s, g)
    case NoCheck =>
    case SlipCheck =>
      if bounded && MeetsAll(d, SlipBounds(g, bounded)) {
        assert Meets(d, SlipBounds(g, bounded)[0]) && Meets(d, SlipBounds(g, bounded)[1]);
      }
    case TrimCheck =>
      var own := if g.trimIn then TrimInBounds(g, bounded) else TrimOutBounds(g, bounded);
      var ripple := if s.tool == RippleTool then RippleBounds(pre, post, s.trimInPoint) else [];
      MeetsAllConcat(d, own, ripple);
      RippleLegalIffMeets(pre, post, s.trimInPoint, d);
      if MeetsAll(d, own) {
        if g.trimIn {
          assert Meets(d, own[0]) && Meets(d, own[1]);
          if bounded { assert Meets(d, own[2]); }
        } else {
          assert Meets(d, own[0]);
          if bounded { assert Meets(d, own[1]); }
        }
      }
    case MoveCheck =>
      var bs := MoveBounds(g, bounded);
      if MeetsAll(d, bs) {
        assert Meets(d, bs[0]);
        if g.transition != WholeClip && bounded { assert Meets(d, bs[1]) && Meets(d, bs[2]); }
      }
    case TransitionCheck =>
      match ClipAt(clips, g.clip)
      case Some(c) =>
        var bs := TransitionToolBounds(c, s.transitionToolType);
        if MeetsAll(d, bs) {
          assert Meets(d, bs[0]) && Meets(d, bs[1]) && Meets(d, bs[2]);
        }
      case None =>
  }

  lemma {:induction false} AllLegalIffMeets(s: Session, clips: Clips, pre: seq<Placed>, post: seq<Placed>, ghosts: seq<Ghost>, d: int)
    ensures AllLegal(s, clips, pre, post, ghosts, d) <==> MeetsAll(d, AllBounds(s, clips, pre, post, ghosts))
    decreases |ghosts|
  {
    if ghosts != [] {
      var own := GhostBounds(s, clips, pre, post, ghosts[0]);
      AllLegalIffMeets(s, clips, pre, post, ghosts[1..], d);
      GhostLegalIffMeets(s, clips, pre, post, ghosts[0], d);
      MeetsAllConcat(d, own, AllBounds(s, clips, pre, post, ghosts[1..]));
      if AllLegal(s, clips, pre, post, ghosts, d) {
        forall i | 0 <= i < |ghosts[1..]| ensures GhostLegal(s, clips, pre, post, ghosts[1..][i], d) {
          assert ghosts[1..][i] == ghosts[i + 1];
        }
      }
      if MeetsAll(d, AllBounds(s, clips, pre, post, ghosts)) {
        forall i | 0 <= i < |ghosts| ensures GhostLegal(s, clips, pre, post, ghosts[i], d) {
          if i > 0 { assert ghosts[i] == ghosts[1..][i - 1]; }
        }
      }
    }
  }

  // ---------------------------------------------------------------------
  // The validator's guarantees

  /** When some difference would make every ghost legal at once, the
      validated difference does: every trim keeps at least one frame and
      stays inside a finite source, nothing moves before frame 0, rippled
      clips stay clear of the clips before them, a slip keeps `clip_in`
      inside the media. */
  lemma ValidatedIsLegal(s: Session, clips: Clips, pre: seq<Placed>, post: seq<Placed>, ghosts: seq<Ghost>, d: int)
    requires AllRegular(s, clips, ghosts)
    requires Satisfiable(s, clips, pre, post, ghosts)
    ensures AllLegal(s, clips, pre, post, ghosts, ValidateFrame(s, clips, pre, post, ghosts, d))
  {
    var bs := AllBounds(s, clips, pre, post, ghosts);
    var w :| AllLegal(s, clips, pre, post, ghosts, w);
    AllLegalIffMeets(s, clips, pre, post, ghosts, w);
    ConsistentIffSatisfiable(bs);
    ClampAllMeets(d, bs);
    ValidateFrameIsClampAll(s, clips, pre, post, ghosts, d);
    AllLegalIffMeets(s, clips, pre, post, ghosts, ValidateFrame(s, clips, pre, post, ghosts, d));
  }

  lemma {:induction false} RippleClampKeeps(pre: seq<Placed>, post: seq<Placed>, trimInPoint: bool, d: int)
    requires RippleLegal(pre, post, trimInPoint, d)
    ensures RippleClamp(pre, post, trimInPoint, d) == d
  {
    RippleLegalIffMeets(pre, post, trimInPoint, d);
    RippleClampIsClampAll(pre, post, trimInPoint, d);
    ClampAllKeeps(d, RippleBounds(pre, post, trimInPoint));
  }

  lemma GhostClampKeeps(s: Session, clips: Clips, pre: seq<Placed>, post: seq<Placed>, g: Ghost, d: int)
    requires GhostLegal(s, clips, pre, post, g, d)
    ensures GhostClamp(s, clips, pre, post, g, d) == d
  {
    if CheckOf(s, g) == TrimCheck && s.tool == RippleTool {
      RippleClampKeeps(pre, post, s.trimInPoint, d);
    }
  }

  /** A difference that already keeps every ghost legal comes back
      unchanged: each check fires only when its bound is violated. */
  lemma {:induction false} LegalIsKept(s: Session, clips: Clips, pre: seq<Placed>, post: seq<Placed>, ghosts: seq<Ghost>, d: int)
    requires AllLegal(s, clips, pre, post, ghosts, d)
    ensures ValidateFrame(s, clips, pre, post, ghosts, d) == d
    decreases |ghosts|
  {
    if ghosts != [] {
      GhostClampKeeps(s, clips, pre, post, ghosts[0], d);
      assert AllLegal(s, clips, pre, post, ghosts[1..], d) by {
        forall i | 0 <= i < |ghosts[1..]| ensures GhostLegal(s, clips, pre, post, ghosts[1..][i], d) {
          assert ghosts[1..][i] == ghosts[i + 1];
        }
      }
      LegalIsKept(s, clips, pre, post, ghosts[1..], d);
    }
  }

  /** Contrapositive of `LegalIsKept`: a changed difference was illegal for some ghost. */
  lemma ChangedMeansIllegal(s: Session, clips: Clips, pre: seq<Placed>, post: seq<Placed>, ghosts: seq<Ghost>, d: int)
    requires ValidateFrame(s, clips, pre, post, ghosts, d) != d
    ensures exists i :: 0 <= i < |ghosts| && !GhostLegal(s, clips, pre, post, ghosts[i], d)
  {
    if !exists i :: 0 <= i < |ghosts| && !GhostLegal(s, clips, pre, post, ghosts[i], d) {
      LegalIsKept(s, clips, pre, post, ghosts, d);
    }
  }

  // ---------------------------------------------------------------------
  // Track difference

  /** The walk that keeps a dragged ghost on its own side: step the track
      difference toward zero, one track at a time, until the destination has
      the sign of the anchor track. */
  function WalkTrack(oldTrack: int, trackDiff: int): (r: int)
    ensures SameSign(oldTrack, oldTrack + r)
    ensures SameSign(oldTrack, oldTrack + trackDiff) ==> r == trackDiff
    ensures oldTrack < 0 ==> r <= trackDiff
    ensures oldTrack >= 0 ==> r >= trackDiff
    ensures r != trackDiff ==> (0 <= r < trackDiff || trackDiff < r <= 0)
    ensures r != trackDiff ==> oldTrack + r == -1 || oldTrack + r == 0
    decreases if oldTrack < 0 then oldTrack + trackDiff else -(oldTrack + trackDiff)
  {
    if SameSign(oldTrack, oldTrack + trackDiff) then trackDiff
    else if oldTrack < 0 then WalkTrack(oldTrack, trackDiff - 1)
    else WalkTrack(oldTrack, trackDiff + 1)
  }

  /** The ghost takes part in the track walk. */
  predicate Walks(s: Session, g: Ghost) {
    CheckOf(s, g) == MoveCheck && SameSign(g.oldTrack, s.dragTrackStart)
  }

  function ValidateTrack(s: Session, ghosts: seq<Ghost>, trackDiff: int): int
    decreases |ghosts|
  {
    if ghosts == [] then trackDiff
    else
      var td := if Walks(s, ghosts[0]) then WalkTrack(ghosts[0].oldTrack, trackDiff) else trackDiff;
      ValidateTrack(s, ghosts[1..], td)
  }

  /** Every walk goes the same way: toward audio-side zero from video, and
      back from audio. */
  lemma {:induction false} ValidateTrackDirection(s: Session, ghosts: seq<Ghost>, trackDiff: int)
    ensures s.dragTrackStart < 0 ==> ValidateTrack(s, ghosts, trackDiff) <= trackDiff
    ensures s.dragTrackStart >= 0 ==> ValidateTrack(s, ghosts, trackDiff) >= trackDiff
    decreases |ghosts|
  {
    if ghosts != [] {
      var td := if Walks(s, ghosts[0]) then WalkTrack(ghosts[0].oldTrack, trackDiff) else trackDiff;
      ValidateTrackDirection(s, ghosts[1..], td);
    }
  }

  /** Track-sign preservation: after the walk every walking ghost's
      destination track `old_track + track_diff` is on its anchor's side,
      whatever the order of the ghosts. */
  lemma {:induction false} ValidateTrackKeepsSides(s: Session, ghosts: seq<Ghost>, trackDiff: int)
    ensures forall i :: 0 <= i < |ghosts| && Walks(s, ghosts[i]) ==>
              SameSign(ghosts[i].oldTrack, ghosts[i].oldTrack + ValidateTrack(s, ghosts, trackDiff))
    decreases |ghosts|
  {
    if ghosts != [] {
      var g := ghosts[0];
      var td := if Walks(s, g) then WalkTrack(g.oldTrack, trackDiff) else trackDiff;
      var r := ValidateTrack(s, ghosts, trackDiff);
      ValidateTrackKeepsSides(s, ghosts[1..], td);
      ValidateTrackDirection(s, ghosts[1..], td);
      forall i | 0 <= i < |ghosts| && Walks(s, ghosts[i])
        ensures SameSign(ghosts[i].oldTrack, ghosts[i].oldTrack + r)
      {
        if i > 0 {
          assert ghosts[i] == ghosts[1..][i - 1];
        }
      }
    }
  }

  /** The validated differences of one pointer move. */
  datatype Diffs = Diffs(frameDiff: int, trackDiff: int)

  /** Both validations; the source runs them in one loop, and neither reads
      the other's variable. */
  function Validated(s: Session, clips: Clips, pre: seq<Placed>, post: seq<Placed>, ghosts: seq<Ghost>, frameDiff: int, trackDiff: int): Diffs {
    Diffs(ValidateFrame(s, clips, pre, post, ghosts, frameDiff), ValidateTrack(s, ghosts, trackDiff))
  }
}
