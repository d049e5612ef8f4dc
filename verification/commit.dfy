/** The commit of a gesture on mouse release: the ripple of a ripple trim,
    then a duplicate (alt with the pointer, not trimming) or an insert or
    area clearance followed by the move of every clip after its ghost; and
    the commit of a drop from the project. Each returns the commands it
    appends, in order, with the ghosts and selections as the commit leaves
    them. */
module Commit {
  import opened Timeline
  import opened Validate
  import opened ClipEdits
  import GhostUpdate
  import Seeding

  // ---------------------------------------------------------------------
  // Extremes

  function Least(xs: seq<int>): (r: int)
    requires |xs| > 0
    ensures r in xs
    ensures forall k :: 0 <= k < |xs| ==> r <= xs[k]
  {
    if |xs| == 1 then xs[0]
    else
      var m := Least(xs[1..]);
      assert forall k :: 1 <= k < |xs| ==> xs[k] == xs[1..][k - 1];
      if xs[0] < m then xs[0] else m
  }

  function Greatest(xs: seq<int>): (r: int)
    requires |xs| > 0
    ensures r in xs
    ensures forall k :: 0 <= k < |xs| ==> xs[k] <= r
  {
    if |xs| == 1 then xs[0]
    else
      var m := Greatest(xs[1..]);
      assert forall k :: 1 <= k < |xs| ==> xs[k] == xs[1..][k - 1];
      if xs[0] > m then xs[0] else m
  }

  function Ins(gs: seq<Ghost>): seq<int> { seq(|gs|, k requires 0 <= k < |gs| => gs[k].inFrame) }
  function Outs(gs: seq<Ghost>): seq<int> { seq(|gs|, k requires 0 <= k < |gs| => gs[k].outFrame) }
  function OldIns(gs: seq<Ghost>): seq<int> { seq(|gs|, k requires 0 <= k < |gs| => gs[k].oldIn) }
  function OldOuts(gs: seq<Ghost>): seq<int> { seq(|gs|, k requires 0 <= k < |gs| => gs[k].oldOut) }

  /** The clip indices of the ghosts, in order. */
  function ClipsOf(gs: seq<Ghost>): seq<int> { seq(|gs|, k requires 0 <= k < |gs| => gs[k].clip) }

  /** The ranges the ghosts occupy, as areas to clear. */
  function AreasOf(gs: seq<Ghost>): seq<Area> {
    seq(|gs|, k requires 0 <= k < |gs| => Area(gs[k].inFrame, gs[k].outFrame, gs[k].track))
  }

  function Shift(g: Ghost, delta: int): Ghost {
    g.(inFrame := g.inFrame + delta, outFrame := g.outFrame + delta)
  }

  function ShiftAll(gs: seq<Ghost>, delta: int): seq<Ghost> {
    seq(|gs|, k requires 0 <= k < |gs| => Shift(gs[k], delta))
  }

  function ShiftSelections(sels: seq<Selection>, delta: int): seq<Selection> {
    seq(|sels|, k requires 0 <= k < |sels| => sels[k].(inFrame := sels[k].inFrame + delta, outFrame := sels[k].outFrame + delta))
  }

  // ---------------------------------------------------------------------
  // The ripple of a ripple trim

  datatype Rippled = Rippled(ghosts: seq<Ghost>, cmd: Cmd)

  /** The anchor of each ghost on the trimmed side. */
  function Comps(gs: seq<Ghost>, trimInPoint: bool): seq<int> {
    if trimInPoint then OldIns(gs) else OldOuts(gs)
  }

  /** The first ghost's trim gives the ripple's length; the ripple point is
      the earliest anchor on the trimmed side. On a trim of in points every
      ghost's clip is exempt from the ripple and the ghosts are pushed back by
      the trimmed amount. */
  function RippleCommit(gs: seq<Ghost>, trimInPoint: bool): (r: Rippled)
    requires |gs| > 0
    ensures |r.ghosts| == |gs| && r.cmd.Ripple?
    ensures forall k :: 0 <= k < |gs| ==> r.cmd.point <= Comps(gs, trimInPoint)[k]
    ensures r.cmd.point in Comps(gs, trimInPoint)
    ensures trimInPoint ==> r.cmd.ignore == ClipsOf(gs)
    ensures !trimInPoint ==> r.cmd.ignore == [] && r.ghosts == gs
  {
    var g0 := gs[0];
    var trimmed := if trimInPoint then g0.oldIn - g0.inFrame else g0.oldOut - g0.outFrame;
    Rippled(
      if trimInPoint then ShiftAll(gs, trimmed) else gs,
      Ripple(Least(Comps(gs, trimInPoint)), if trimInPoint then trimmed else -trimmed,
             if trimInPoint then ClipsOf(gs) else []))
  }

  /** Every ghost was trimmed by the same difference on the same side, the
      other edge staying at its anchor. */
  predicate UniformTrim(gs: seq<Ghost>, trimInPoint: bool, d: int) {
    forall k :: 0 <= k < |gs| ==>
      if trimInPoint then gs[k].inFrame == gs[k].oldIn + d && gs[k].outFrame == gs[k].oldOut
      else gs[k].outFrame == gs[k].oldOut + d && gs[k].inFrame == gs[k].oldIn
  }

  /** A ripple moves the rest of the timeline by exactly the change in the
      trimmed clips' length; after a trim of in points the ghosts return to
      their old start, so the trimmed clips keep their place and lose (or
      gain) frames at their end instead. */
  lemma RippleByLengthChange(gs: seq<Ghost>, trimInPoint: bool, d: int)
    requires |gs| > 0
    requires UniformTrim(gs, trimInPoint, d)
    ensures var r := RippleCommit(gs, trimInPoint);
      && (forall k :: 0 <= k < |gs| ==> r.cmd.length == (gs[k].outFrame - gs[k].inFrame) - (gs[k].oldOut - gs[k].oldIn))
      && (trimInPoint ==> forall k :: 0 <= k < |gs| ==>
            r.ghosts[k].inFrame == gs[k].oldIn && r.ghosts[k].outFrame == gs[k].oldOut - d)
  {
  }

  /** A ripple drag leaves its trimming ghosts uniformly trimmed by the
      validated difference. */
  lemma RippleDragIsUniform(s: Session, clips: Clips, pre: seq<Placed>, post: seq<Placed>, gs: seq<Ghost>,
                            sels: seq<Selection>, frameDiff: int, mouseTrack: int, snapped: bool)
    requires s.tool == RippleTool
    requires forall k :: 0 <= k < |gs| ==> gs[k].trimming && gs[k].trimIn == s.trimInPoint && Anchored(gs[k])
    ensures var u := GhostUpdate.UpdateGhosts(s, clips, pre, post, gs, sels, frameDiff, mouseTrack, snapped);
      UniformTrim(u.ghosts, s.trimInPoint, u.frameDiff)
  {
  }

  // ---------------------------------------------------------------------
  // Insert (ctrl with the pointer, or a ctrl drop)

  predicate Straddles(clips: Clips, i: int, at: int) {
    Present(clips, i) && clips[i].value.timelineIn < at < clips[i].value.timelineOut
  }

  /** A split at `at` of every clip from index `i` on that straddles it. */
  function SplitsFrom(clips: Clips, at: int, i: nat): (r: seq<Cmd>)
    requires i <= |clips|
    ensures forall x :: x in r <==> x.SplitClip? && x.frame == at && i <= x.clip && Straddles(clips, x.clip, at)
    decreases |clips| - i
  {
    if i == |clips| then []
    else (if Straddles(clips, i, at) then [SplitClip(i, at)] else []) + SplitsFrom(clips, at, i + 1)
  }

  /** The clip lies wholly before `eo` or wholly after `lo`. */
  predicate Aside(c: Clip, eo: int, lo: int) {
    (c.timelineIn < eo && c.timelineOut <= eo) || (c.timelineIn >= lo && c.timelineOut > lo)
  }

  /** The scan for a clip, other than the ghosts' own, inside the span the
      ghosts leave: true when clips from index `i` on all lie aside. */
  function ClearFrom(clips: Clips, ignore: seq<int>, eo: int, lo: int, i: nat): (r: bool)
    requires i <= |clips|
    ensures r <==> forall j :: i <= j < |clips| && clips[j].Some? && j !in ignore ==> Aside(clips[j].value, eo, lo)
    decreases |clips| - i
  {
    if i == |clips| then true
    else if clips[i].Some? && !Aside(clips[i].value, eo, lo) && i !in ignore then false
    else ClearFrom(clips, ignore, eo, lo, i + 1)
  }

  /** The clips of the ghosts that have one, in order. */
  function IgnoreOf(gs: seq<Ghost>): (r: seq<int>)
    ensures forall j :: j in r <==> exists k :: 0 <= k < |gs| && gs[k].clip == j && j >= 0
  {
    if gs == [] then []
    else
      var rest := IgnoreOf(gs[1..]);
      assert forall k :: 1 <= k < |gs| ==> gs[k] == gs[1..][k - 1];
      (if gs[0].clip >= 0 then [gs[0].clip] else []) + rest
  }

  predicate AllFromClips(gs: seq<Ghost>) {
    forall k :: 0 <= k < |gs| ==> gs[k].clip >= 0
  }

  datatype Insertion = Insertion(splits: seq<Cmd>, ripples: seq<Cmd>, ghosts: seq<Ghost>, selections: seq<Selection>)

  /** Insert: split the clips straddling the earliest ghost start, ripple
      everything from there on by the ghosts' span, and, when every ghost
      comes from a clip and no other clip lies in the span they leave, ripple
      that span closed again. When the old span lies before the new one the
      ghosts and selections follow the closing ripple. */
  function InsertClips(clips: Clips, gs: seq<Ghost>, sels: seq<Selection>): (r: Insertion)
    requires |gs| > 0
    ensures |r.ghosts| == |gs| && |r.selections| == |sels|
    ensures 1 <= |r.ripples| <= 2
    ensures ShiftedFrom(gs, r.ghosts)
  {
    var eo := Least(OldIns(gs));
    var lo := Greatest(OldOuts(gs));
    var en := Least(Ins(gs));
    var ln := Greatest(Outs(gs));
    var ignore := IgnoreOf(gs);
    var rippleOld := AllFromClips(gs) && ClearFrom(clips, ignore, eo, lo, 0);
    Assemble(SplitsFrom(clips, en, 0), Ripple(en, ln - en, ignore), Ripple(lo, eo - lo, ignore), rippleOld, eo < en, gs, sels)
  }

  /** The insert's result from its parts: the closing ripple only when
      `closes`, and the ghosts and selections following it when `follows`. */
  function Assemble(splits: seq<Cmd>, opening: Cmd, closing: Cmd, closes: bool, follows: bool, gs: seq<Ghost>, sels: seq<Selection>): Insertion
    requires closing.Ripple?
  {
    if !closes then Insertion(splits, [opening], gs, sels)
    else if follows then Insertion(splits, [opening, closing], ShiftAll(gs, closing.length), ShiftSelections(sels, closing.length))
    else Insertion(splits, [opening, closing], gs, sels)
  }

  /** The insert splits exactly the clips that straddle the earliest ghost
      start, and its first ripple opens the ghosts' whole span there. */
  lemma InsertOpensSpan(clips: Clips, gs: seq<Ghost>, sels: seq<Selection>)
    requires |gs| > 0
    ensures var r := InsertClips(clips, gs, sels);
      var p := r.ripples[0];
      && p.Ripple?
      && (forall k :: 0 <= k < |gs| ==> p.point <= gs[k].inFrame && gs[k].outFrame <= p.point + p.length)
      && (exists k :: 0 <= k < |gs| && p.point == gs[k].inFrame)
      && (exists k :: 0 <= k < |gs| && p.point + p.length == gs[k].outFrame)
      && (forall j :: j in p.ignore <==> exists k :: 0 <= k < |gs| && gs[k].clip == j && j >= 0)
      && (forall x :: x in r.splits <==> x.SplitClip? && x.frame == p.point && Straddles(clips, x.clip, p.point))
  {
    var en := Least(Ins(gs));
    var ln := Greatest(Outs(gs));
    assert forall k :: 0 <= k < |gs| ==> Ins(gs)[k] == gs[k].inFrame && Outs(gs)[k] == gs[k].outFrame;
    var a :| 0 <= a < |gs| && Ins(gs)[a] == en;
    var b :| 0 <= b < |gs| && Outs(gs)[b] == ln;
  }

  /** The closing ripple is emitted exactly when every ghost comes from a
      clip and every other clip lies wholly before or wholly after the span
      the ghosts leave; it pulls what follows that span back by its length. */
  lemma InsertClosesOldSpan(clips: Clips, gs: seq<Ghost>, sels: seq<Selection>)
    requires |gs| > 0
    ensures var r := InsertClips(clips, gs, sels);
      && (|r.ripples| == 2 <==>
            AllFromClips(gs)
            && forall j :: 0 <= j < |clips| && clips[j].Some? && j !in IgnoreOf(gs) ==>
                 Aside(clips[j].value, Least(OldIns(gs)), Greatest(OldOuts(gs))))
      && (|r.ripples| == 2 ==>
            && r.ripples[1].Ripple?
            && (forall k :: 0 <= k < |gs| ==> gs[k].oldOut <= r.ripples[1].point && r.ripples[1].point + r.ripples[1].length <= gs[k].oldIn)
            && (exists k :: 0 <= k < |gs| && r.ripples[1].point == gs[k].oldOut)
            && (exists k :: 0 <= k < |gs| && r.ripples[1].point + r.ripples[1].length == gs[k].oldIn))
  {
    var eo := Least(OldIns(gs));
    var lo := Greatest(OldOuts(gs));
    assert forall k :: 0 <= k < |gs| ==> OldIns(gs)[k] == gs[k].oldIn && OldOuts(gs)[k] == gs[k].oldOut;
    var a :| 0 <= a < |gs| && OldIns(gs)[a] == eo;
    var b :| 0 <= b < |gs| && OldOuts(gs)[b] == lo;
  }

  /** The ghosts and selections move with the closing ripple exactly when it
      is emitted and the old span starts before the new one. */
  lemma InsertShiftsGhosts(clips: Clips, gs: seq<Ghost>, sels: seq<Selection>)
    requires |gs| > 0
    ensures var r := InsertClips(clips, gs, sels);
      var shifts := |r.ripples| == 2 && Least(OldIns(gs)) < Least(Ins(gs));
      && (shifts ==> r.ghosts == ShiftAll(gs, r.ripples[1].length) && r.selections == ShiftSelections(sels, r.ripples[1].length))
      && (!shifts ==> r.ghosts == gs && r.selections == sels)
  {
    var eo := Least(OldIns(gs));
    var lo := Greatest(OldOuts(gs));
    var en := Least(Ins(gs));
    var ln := Greatest(Outs(gs));
    var ignore := IgnoreOf(gs);
    assert InsertClips(clips, gs, sels)
      == Assemble(SplitsFrom(clips, en, 0), Ripple(en, ln - en, ignore), Ripple(lo, eo - lo, ignore),
                  AllFromClips(gs) && ClearFrom(clips, ignore, eo, lo, 0), eo < en, gs, sels);
  }

  /** New ghosts (a drop) never close an old span: one ripple, nothing moved. */
  lemma InsertOfNewClips(clips: Clips, gs: seq<Ghost>, sels: seq<Selection>)
    requires |gs| > 0
    requires exists k :: 0 <= k < |gs| && gs[k].clip < 0
    ensures var r := InsertClips(clips, gs, sels);
      |r.ripples| == 1 && r.ghosts == gs && r.selections == sels
  {
  }

  // ---------------------------------------------------------------------
  // Duplicate (alt with the pointer)

  /** The ghosts that left their anchor, in order. */
  function MovedGhosts(gs: seq<Ghost>): (r: seq<Ghost>)
    ensures forall g :: g in r <==> g in gs && !Anchored(g)
    ensures |r| <= |gs|
  {
    if gs == [] then []
    else (if Anchored(gs[0]) then [] else [gs[0]]) + MovedGhosts(gs[1..])
  }

  /** A clip's copy placed at its ghost; the copy keeps the clip's source
      offset. */
  function CopyAt(c: Clip, g: Ghost): Clip {
    c.(timelineIn := g.inFrame, timelineOut := g.outFrame, track := g.track)
  }

  predicate MovedOnClips(clips: Clips, gs: seq<Ghost>) {
    forall k {:trigger gs[k]} :: 0 <= k < |gs| && !Anchored(gs[k]) ==> Present(clips, gs[k].clip)
  }

  /** Every moved ghost yields a copy of its clip at the ghost; the copies'
      places are cleared first (nothing kept) and the copies added with their
      source clips for relinking. Nothing when no ghost moved. */
  function DuplicateCmds(clips: Clips, gs: seq<Ghost>): (r: seq<Cmd>)
    requires MovedOnClips(clips, gs)
    ensures forall x :: x in r ==> x.DeleteAreas? || x.AddCopies?
    ensures r == [] <==> forall k :: 0 <= k < |gs| ==> Anchored(gs[k])
  {
    var moved := MovedGhosts(gs);
    assert forall k :: 0 <= k < |moved| ==> moved[k] in gs && !Anchored(moved[k]);
    if moved == [] then
      assert forall k :: 0 <= k < |gs| ==> Anchored(gs[k]) by {
        forall k | 0 <= k < |gs| ensures Anchored(gs[k]) {
          assert gs[k] in gs;
        }
      }
      []
    else
      assert !Anchored(moved[0]) && moved[0] in gs;
      [DeleteAreas(AreasOf(moved), []),
       AddCopies(ClipsOf(moved), seq(|moved|, k requires 0 <= k < |moved| => CopyAt(ClipAt(clips, moved[k].clip).value, moved[k])))]
  }

  /** A duplicate copies every moved ghost's clip to where the ghost is and
      clears exactly those places. */
  lemma DuplicatePlacesCopies(clips: Clips, gs: seq<Ghost>)
    requires MovedOnClips(clips, gs)
    requires exists k :: 0 <= k < |gs| && !Anchored(gs[k])
    ensures var r := DuplicateCmds(clips, gs);
      && |r| == 2 && r[0].DeleteAreas? && r[1].AddCopies?
      && r[0].keep == []
      && |r[1].copies| == |r[1].sources| == |r[0].areas|
      && forall j :: 0 <= j < |r[1].copies| ==>
           && Present(clips, r[1].sources[j])
           && r[1].copies[j] == clips[r[1].sources[j]].value.(
                timelineIn := r[0].areas[j].inFrame, timelineOut := r[0].areas[j].outFrame, track := r[0].areas[j].track)
           && exists k :: 0 <= k < |gs| && !Anchored(gs[k]) && gs[k].clip == r[1].sources[j]
                && r[0].areas[j] == Area(gs[k].inFrame, gs[k].outFrame, gs[k].track)
  {
    var moved := MovedGhosts(gs);
    assert forall k :: 0 <= k < |moved| ==> moved[k] in gs && !Anchored(moved[k]);
    var k0 :| 0 <= k0 < |gs| && !Anchored(gs[k0]);
    assert gs[k0] in moved;
    forall j | 0 <= j < |moved|
      ensures exists k :: 0 <= k < |gs| && !Anchored(gs[k]) && gs[k].clip == moved[j].clip
                && Area(moved[j].inFrame, moved[j].outFrame, moved[j].track) == Area(gs[k].inFrame, gs[k].outFrame, gs[k].track)
    {
      var k :| 0 <= k < |gs| && gs[k] == moved[j];
    }
  }

  // ---------------------------------------------------------------------
  // Move

  /** The commands of one ghost in the move loop. */
  function GhostCmds(clips: Clips, g: Ghost, trimInPoint: bool): seq<Cmd>
    requires Present(clips, g.clip)
  {
    if g.transition == WholeClip then BodyCmds(ClipOf(clips, g), g.clip, g, trimInPoint)
    else TransitionGhostCmds(ClipOf(clips, g), g.clip, g)
  }

  /** The move loop: every ghost's commands, in ghost order. */
  function MoveLoop(clips: Clips, gs: seq<Ghost>, trimInPoint: bool): (r: seq<Cmd>)
    requires OnClips(clips, gs)
  {
    if gs == [] then []
    else
      assert OnClips(clips, gs[1..]) by {
        forall k | 0 <= k < |gs[1..]| ensures Present(clips, gs[1..][k].clip) { assert gs[1..][k] == gs[k + 1]; }
      }
      assert Present(clips, gs[0].clip);
      GhostCmds(clips, gs[0], trimInPoint) + MoveLoop(clips, gs[1..], trimInPoint)
  }

  lemma {:induction false} MoveLoopHas(clips: Clips, gs: seq<Ghost>, trimInPoint: bool, k: int)
    requires OnClips(clips, gs)
    requires 0 <= k < |gs|
    ensures Present(clips, gs[k].clip)
    ensures forall x :: x in GhostCmds(clips, gs[k], trimInPoint) ==> x in MoveLoop(clips, gs, trimInPoint)
    decreases k
  {
    assert Present(clips, gs[k].clip);
    if k > 0 {
      assert OnClips(clips, gs[1..]) by {
        forall j | 0 <= j < |gs[1..]| ensures Present(clips, gs[1..][j].clip) { assert gs[1..][j] == gs[j + 1]; }
      }
      assert gs[1..][k - 1] == gs[k];
      MoveLoopHas(clips, gs[1..], trimInPoint, k - 1);
    }
  }

  // ---------------------------------------------------------------------
  // The commit on release

  datatype Release = Release(cmds: seq<Cmd>, ghosts: seq<Ghost>, selections: seq<Selection>)

  /** Alt with the pointer, when not trimming, duplicates instead of moving. */
  predicate Duplicating(s: Session, alt: bool) {
    s.tool == PointerTool && alt && s.trimTarget == -1
  }

  /** `b` is `a` with each ghost possibly shifted along the timeline. */
  predicate ShiftedFrom(a: seq<Ghost>, b: seq<Ghost>) {
    |a| == |b| && forall k :: 0 <= k < |a| ==> b[k] == Shift(a[k], b[k].inFrame - a[k].inFrame)
  }

  lemma OnClipsFollows(clips: Clips, a: seq<Ghost>, b: seq<Ghost>)
    requires OnClips(clips, a) && ShiftedFrom(a, b)
    ensures OnClips(clips, b)
  {
    forall k | 0 <= k < |b| ensures Present(clips, b[k].clip) { assert Present(clips, a[k].clip); }
  }

  predicate EndsWith(a: seq<Cmd>, b: seq<Cmd>) {
    |b| <= |a| && a[|a| - |b|..] == b
  }

  /** The ghosts after the ripple of a ripple trim. */
  function AfterRipple(s: Session, gs: seq<Ghost>): (r: seq<Ghost>)
    requires |gs| > 0
    ensures ShiftedFrom(gs, r)
  {
    if s.tool == RippleTool then RippleCommit(gs, s.trimInPoint).ghosts else gs
  }

  /** The commit of a moving gesture on release, with the ctrl and alt
      modifiers as held at release. */
  function ReleaseCommit(s: Session, clips: Clips, gs: seq<Ghost>, sels: seq<Selection>, ctrl: bool, alt: bool): (r: Release)
    requires |gs| > 0
    requires OnClips(clips, gs)
    ensures ShiftedFrom(gs, r.ghosts) && |r.selections| == |sels|
    ensures OnClips(clips, r.ghosts)
    ensures !Duplicating(s, alt) ==> EndsWith(r.cmds, MoveLoop(clips, r.ghosts, s.trimInPoint))
  {
    var ripple := if s.tool == RippleTool then [RippleCommit(gs, s.trimInPoint).cmd] else [];
    var gs1 := AfterRipple(s, gs);
    OnClipsFollows(clips, gs, gs1);
    if Duplicating(s, alt) then
      assert MovedOnClips(clips, gs1);
      Release(ripple + DuplicateCmds(clips, gs1), gs1, sels)
    else if s.tool == PointerTool && ctrl then
      var ins := InsertClips(clips, gs1, sels);
      OnClipsFollows(clips, gs1, ins.ghosts);
      Release(ripple + ins.splits + ins.ripples + MoveLoop(clips, ins.ghosts, s.trimInPoint), ins.ghosts, ins.selections)
    else if s.tool == PointerTool || s.tool == SlideTool then
      Release(ripple + [DeleteAreas(AreasOf(gs1), ClipsOf(gs1))] + MoveLoop(clips, gs1, s.trimInPoint), gs1, sels)
    else
      Release(ripple + MoveLoop(clips, gs1, s.trimInPoint), gs1, sels)
  }

  /** A duplicate never moves, trims or re-fits an existing clip. */
  lemma DuplicateLeavesOriginals(s: Session, clips: Clips, gs: seq<Ghost>, sels: seq<Selection>, ctrl: bool, alt: bool)
    requires |gs| > 0 && OnClips(clips, gs)
    requires Duplicating(s, alt)
    ensures forall x :: x in ReleaseCommit(s, clips, gs, sels, ctrl, alt).cmds ==> x.DeleteAreas? || x.AddCopies?
  {
  }

  /** Outside a duplicate, the commit moves the clip of every whole-clip
      ghost exactly onto the ghost as the commit leaves it (after any ripple
      or insert shift). */
  lemma MovedClipsLandOnGhosts(s: Session, clips: Clips, gs: seq<Ghost>, sels: seq<Selection>, ctrl: bool, alt: bool, k: int)
    requires |gs| > 0 && OnClips(clips, gs)
    requires !Duplicating(s, alt)
    requires 0 <= k < |gs| && gs[k].transition == WholeClip && AnchoredAt(gs[k], ClipOf(clips, gs[k]))
    ensures var r := ReleaseCommit(s, clips, gs, sels, ctrl, alt);
      var g := r.ghosts[k];
      MoveClip(g.clip, g.inFrame, g.outFrame, g.clipIn, g.track) in r.cmds
  {
    var r := ReleaseCommit(s, clips, gs, sels, ctrl, alt);
    assert r.ghosts[k] == Shift(gs[k], r.ghosts[k].inFrame - gs[k].inFrame);
    LoopTailMoves(clips, r.cmds, r.ghosts, s.trimInPoint, k);
  }

  /** A command list ending with the move loop moves every anchored
      whole-clip ghost's clip onto the ghost. */
  lemma LoopTailMoves(clips: Clips, cmds: seq<Cmd>, gs: seq<Ghost>, trimInPoint: bool, k: int)
    requires OnClips(clips, gs) && 0 <= k < |gs|
    requires EndsWith(cmds, MoveLoop(clips, gs, trimInPoint))
    requires gs[k].transition == WholeClip && AnchoredAt(gs[k], ClipOf(clips, gs[k]))
    ensures MoveClip(gs[k].clip, gs[k].inFrame, gs[k].outFrame, gs[k].clipIn, gs[k].track) in cmds
  {
    var g := gs[k];
    MoveLoopHas(clips, gs, trimInPoint, k);
    BodyMoveLands(clips, g, trimInPoint);
    var loop := MoveLoop(clips, gs, trimInPoint);
    assert cmds == cmds[..|cmds| - |loop|] + loop;
  }

  lemma BodyMoveLands(clips: Clips, g: Ghost, trimInPoint: bool)
    requires Present(clips, g.clip) && g.transition == WholeClip && AnchoredAt(g, ClipOf(clips, g))
    ensures MoveClip(g.clip, g.inFrame, g.outFrame, g.clipIn, g.track) in GhostCmds(clips, g, trimInPoint)
  {
    assert BodyCmds(ClipOf(clips, g), g.clip, g, trimInPoint)[0] == MoveClip(g.clip, g.inFrame, g.outFrame, g.clipIn, g.track);
  }

  /** Moving with the pointer or the slide tool clears the ghosts' places but
      keeps the moving clips themselves. */
  lemma MoveClearsDestinations(s: Session, clips: Clips, gs: seq<Ghost>, sels: seq<Selection>, ctrl: bool, alt: bool)
    requires |gs| > 0 && OnClips(clips, gs)
    requires (s.tool == PointerTool && !alt && !ctrl) || s.tool == SlideTool
    ensures var r := ReleaseCommit(s, clips, gs, sels, ctrl, alt);
      && r.cmds[0] == DeleteAreas(AreasOf(gs), ClipsOf(gs))
      && (forall k :: 0 <= k < |gs| ==>
            r.cmds[0].areas[k] == Area(gs[k].inFrame, gs[k].outFrame, gs[k].track) && gs[k].clip in r.cmds[0].keep)
  {
    assert AfterRipple(s, gs) == gs;
    assert !Duplicating(s, alt);
    var r := ReleaseCommit(s, clips, gs, sels, ctrl, alt);
    assert r.cmds == [DeleteAreas(AreasOf(gs), ClipsOf(gs))] + MoveLoop(clips, gs, s.trimInPoint);
    assert forall k :: 0 <= k < |gs| ==> ClipsOf(gs)[k] == gs[k].clip;
  }

  /** A ripple trim of the out point of the clip spanning frames 0 to 100 by
      20 frames earlier ripples everything after frame 100 back by 20 frames
      and moves the clip's end to frame 80. */
  lemma RippleTrimOutExample()
    ensures var c := Clip(0, 100, 0, 0, Generated, 0, 100, None, None, []);
      var g := Ghost(0, WholeClip, 0, 80, 0, 100, 0, 0, 0, 0, true, false, 100, 100, 0, 0, 0);
      var s := Session(RippleTool, false, false, 0, false, WholeClip, Opening, 0, false, false);
      ReleaseCommit(s, [Some(c)], [g], [], false, false).cmds == [Ripple(100, -20, []), MoveClip(0, 0, 80, 0, 0)]
  {
    var c := Clip(0, 100, 0, 0, Generated, 0, 100, None, None, []);
    var g := Ghost(0, WholeClip, 0, 80, 0, 100, 0, 0, 0, 0, true, false, 100, 100, 0, 0, 0);
    assert OldOuts([g]) == [100];
    assert MoveLoop([Some(c)], [g], false) == [MoveClip(0, 0, 80, 0, 0)] + MoveLoop([Some(c)], [], false);
  }

  // ---------------------------------------------------------------------
  // Drop

  /** The clip a drop adds for a placed ghost, with its links. */
  function AddedClip(g: Ghost, links: seq<int>): (c: NewClip)
    ensures c.mediaId == g.mediaId && c.mediaStream == g.mediaStream && c.linked == links
    ensures c.timelineIn == g.inFrame && c.timelineOut == g.outFrame && c.clipIn == g.clipIn && c.track == g.track
  {
    NewClip(g.mediaId, g.mediaStream, g.inFrame, g.outFrame, g.clipIn, g.track, links)
  }

  /** What a drop does before adding its clips: a new sequence when there
      is none, else an insert with ctrl or a clearance of the ghosts'
      places; and where the ghosts then are. */
  method DropPrepare(hasSequence: bool, ctrl: bool, clips: Clips, gs: seq<Ghost>, sels: seq<Selection>)
    returns (cmds: seq<Cmd>, placed: seq<Ghost>)
    requires |gs| > 0
    ensures |cmds| >= 1 && |placed| == |gs|
    ensures !hasSequence ==> cmds == [NewSequence] && placed == gs
    ensures hasSequence && !ctrl ==> cmds == [DeleteAreas(AreasOf(gs), [])] && placed == gs
    ensures hasSequence && ctrl && !AllFromClips(gs) ==> placed == gs
    ensures hasSequence && ctrl ==>
      var ins := InsertClips(clips, gs, sels);
      cmds == ins.splits + ins.ripples && placed == ins.ghosts
  {
    placed := gs;
    if !hasSequence {
      cmds := [NewSequence];
    } else if ctrl {
      var ins := InsertClips(clips, gs, sels);
      if !AllFromClips(gs) {
        InsertOfNewClips(clips, gs, sels);
      }
      cmds := ins.splits + ins.ripples;
      placed := ins.ghosts;
    } else {
      cmds := [DeleteAreas(AreasOf(gs), [])];
    }
  }

  /** The commands of a drop, with the ghosts the added clips are made
      from: a new sequence when there is none, else an insert with ctrl or a
      clearance of the ghosts' places; then one clip per ghost, linked to
      the other added clips of the same media. */
  method DropCommit(hasSequence: bool, ctrl: bool, clips: Clips, gs: seq<Ghost>, sels: seq<Selection>)
    returns (cmds: seq<Cmd>, placed: seq<Ghost>)
    requires |gs| > 0
    ensures |cmds| >= 2 && cmds[|cmds| - 1].AddClips?
    ensures var added := cmds[|cmds| - 1].added;
      && |added| == |placed| == |gs|
      && (forall k :: 0 <= k < |added| ==>
            && added[k].mediaId == placed[k].mediaId && added[k].mediaStream == placed[k].mediaStream
            && added[k].timelineIn == placed[k].inFrame && added[k].timelineOut == placed[k].outFrame
            && added[k].clipIn == placed[k].clipIn && added[k].track == placed[k].track)
      && (forall i, j {:trigger j in added[i].linked} :: 0 <= i < |added| && 0 <= j < |added| ==>
            (j in added[i].linked <==> j != i && gs[j].mediaId == gs[i].mediaId))
    ensures !hasSequence ==> cmds == [NewSequence, cmds[1]] && placed == gs
    ensures hasSequence && !ctrl ==> cmds == [DeleteAreas(AreasOf(gs), []), cmds[1]] && placed == gs
    ensures hasSequence && ctrl && !AllFromClips(gs) ==> placed == gs
    ensures hasSequence && ctrl ==>
      var ins := InsertClips(clips, gs, sels);
      cmds[..|cmds| - 1] == ins.splits + ins.ripples && placed == ins.ghosts
  {
    var before;
    before, placed := DropPrepare(hasSequence, ctrl, clips, gs, sels);
    var media := seq(|gs|, k requires 0 <= k < |gs| => gs[k].mediaId);
    var links := Seeding.LinkDropped(media);
    var added := seq(|placed|, k requires 0 <= k < |placed| => AddedClip(placed[k], links[k]));
    assert forall k :: 0 <= k < |added| ==> added[k].linked == links[k];
    cmds := before + [AddClips(added)];
    assert cmds[..|cmds| - 1] == before;
  }
}
