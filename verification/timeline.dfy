/** Data model of the timeline edit engine: clips placed on signed tracks, the
    ghosts that preview an in-progress edit, selections, and the commands a
    commit emits. Frames and tracks are unbounded integers; track numbers are
    signed, negative for video and non-negative for audio. */
module Timeline {

  datatype Option<T> = None | Some(value: T)

  /** The media stream a clip plays, as found by its file index; `NoStream`
      when the lookup finds nothing. */
  datatype Stream = NoStream | Stream(infinite: bool)

  /** What a clip plays: footage through one of its streams, a nested
      sequence, or generated content (solid, title, tone) with no source. */
  datatype Media =
    | Footage(stream: Stream)
    | NestedSequence
    | Generated

  /** A placed clip. `maxLength` is the clip's maximum length from its source
      (`getMaximumLength`, computed elsewhere); `opening` and `closing` are
      the lengths of its transitions, if any; `linked` holds clip indices. */
  datatype Clip = Clip(
    timelineIn: int,
    timelineOut: int,
    clipIn: int,
    track: int,
    media: Media,
    mediaId: int,
    maxLength: int,
    opening: Option<int>,
    closing: Option<int>,
    linked: seq<int>)
  {
    function Length(): int { timelineOut - timelineIn }
  }

  /** The source has a finite length, so `clip_in` is held inside it: a
      nested sequence, or footage whose stream is not an infinite still. */
  predicate Bounded(c: Clip) {
    || c.media.NestedSequence?
    || (c.media.Footage? && c.media.stream.Stream? && !c.media.stream.infinite)
  }

  /** The sequence's clip table; a slot may be empty. */
  type Clips = seq<Option<Clip>>

  predicate Present(clips: Clips, i: int) {
    0 <= i < |clips| && clips[i].Some?
  }

  function ClipAt(clips: Clips, i: int): Option<Clip> {
    if Present(clips, i) then clips[i] else None
  }

  /** Every ghost refers to a clip in the table. */
  predicate OnClips(clips: Clips, gs: seq<Ghost>) {
    forall k {:trigger gs[k]} :: 0 <= k < |gs| ==> Present(clips, gs[k].clip)
  }

  function ClipOf(clips: Clips, g: Ghost): Clip
    requires Present(clips, g.clip)
  {
    clips[g.clip].value
  }

  /** What a ghost stands for: a whole clip or one of its transitions. The
      same values encode the timeline's transition selection mode, where
      `WholeClip` means no transition is selected. */
  datatype Part = WholeClip | OpeningTransition | ClosingTransition

  datatype Side = Opening | Closing

  /** The ephemeral proposal for one clip or transition during a gesture.
      `clip` is -1 for a ghost that has no clip yet (a drop or a creation).
      The `old*` fields are frozen at gesture start. `mediaId` names the
      media the ghost plays; `slot` is, for a drop ghost, the position of
      the dragged item it came from (0 for every other ghost). */
  datatype Ghost = Ghost(
    clip: int,
    transition: Part,
    inFrame: int,
    outFrame: int,
    oldIn: int,
    oldOut: int,
    clipIn: int,
    oldClipIn: int,
    track: int,
    oldTrack: int,
    trimming: bool,
    trimIn: bool,
    ghostLength: int,
    mediaLength: int,
    mediaId: int,
    mediaStream: int,
    slot: int)

  /** A ghost that has not been moved away from its anchor. */
  predicate Anchored(g: Ghost) {
    g.inFrame == g.oldIn && g.outFrame == g.oldOut && g.clipIn == g.oldClipIn && g.track == g.oldTrack
  }

  datatype Selection = Selection(inFrame: int, outFrame: int, track: int, oldIn: int, oldOut: int, oldTrack: int)

  /** A track range handed to the area-deletion routine. */
  datatype Area = Area(inFrame: int, outFrame: int, track: int)

  /** A clip created by a drop, as handed to the add-clips command. */
  datatype NewClip = NewClip(
    mediaId: int,
    mediaStream: int,
    timelineIn: int,
    timelineOut: int,
    clipIn: int,
    track: int,
    linked: seq<int>)

  /** The commands an edit appends to its undoable transaction. Their
      execution lives outside the engine; the engine only emits them.
      `DeleteAreas.keep` lists the clips marked undeletable while the areas
      are cleared. `AddCopies` adds duplicates relinked among themselves
      after the links of the clips listed in `sources`. */
  datatype Cmd =
    | NewSequence
    | SplitClip(clip: int, frame: int)
    | DeleteAreas(areas: seq<Area>, keep: seq<int>)
    | Ripple(point: int, length: int, ignore: seq<int>)
    | MoveClip(clip: int, timelineIn: int, timelineOut: int, clipIn: int, track: int)
    | AddTransition(clip: int, side: Side, length: int)
    | ModifyTransition(clip: int, side: Side, length: int)
    | DeleteTransition(clip: int, side: Side)
    | AddClips(added: seq<NewClip>)
    | AddCopies(sources: seq<int>, copies: seq<Clip>)

  /** Two tracks are on the same side (both video or both audio). */
  predicate SameSign(a: int, b: int) {
    (a < 0) == (b < 0)
  }

  /** Clip `i` exists, lies on `track` and covers `frame` (half-open). */
  predicate Hits(clips: Clips, i: int, frame: int, track: int) {
    Present(clips, i) && clips[i].value.track == track
    && clips[i].value.timelineIn <= frame < clips[i].value.timelineOut
  }

  /** The hit test: the first clip at or after index `from` covering the
      frame on the track, or -1. */
  function ClipIndexFrom(clips: Clips, frame: int, track: int, from: nat): (r: int)
    requires from <= |clips|
    ensures r == -1 || (from <= r && Hits(clips, r, frame, track))
    ensures r != -1 ==> forall k :: from <= k < r ==> !Hits(clips, k, frame, track)
    ensures r == -1 <==> forall k :: from <= k < |clips| ==> !Hits(clips, k, frame, track)
    decreases |clips| - from
  {
    if from == |clips| then -1
    else if Hits(clips, from, frame, track) then from
    else ClipIndexFrom(clips, frame, track, from + 1)
  }

  /** The index of the first clip covering `frame` on `track`, or -1. */
  function ClipIndexAt(clips: Clips, frame: int, track: int): (r: int)
    ensures r == -1 <==> forall k :: 0 <= k < |clips| ==> !Hits(clips, k, frame, track)
    ensures r != -1 ==> Hits(clips, r, frame, track) && forall k :: 0 <= k < r ==> !Hits(clips, k, frame, track)
  {
    ClipIndexFrom(clips, frame, track, 0)
  }
}
