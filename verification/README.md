# Timeline edit engine

A model of the edit engine inside the timeline widget of a non-linear video
editor (`ui/timelinewidget.cpp`). Apart from drawing and Qt event plumbing,
this engine does integer arithmetic over three kinds of record:

- **clips**: a track, timeline in/out frames, a source offset `clip_in`, a
  maximum length and optional opening and closing transitions;
- **ghosts**: the proposal shown while a gesture is in progress, for a whole
  clip or for one of its transitions;
- **selections**.

A gesture runs in three stages:

1. **Seeding.** When the gesture starts, ghosts are created for the selected
   clips or transitions. The slide tool adds ghosts for each clip's
   neighbours. The ripple tool collects the nearest unselected clip on each
   track before and after the trimmed edges (the *pre* and *post* lists).
   A drag from the project lays the dropped media out as ghosts.
2. **Validation.** Every time the mouse moves, the proposed frame and track
   differences are validated. The checks are a chain of one-sided clamps:
   - at least one frame long;
   - not before frame 0;
   - `clip_in` inside a finite source;
   - rippled clips do not run into the pre clips;
   - video stays video and audio stays audio.

   The validated differences are then applied to the ghosts and the
   selections.
3. **Commit.** On release, the ghosts become a list of undoable commands:
   ripple, insert, move, fit or delete transitions, duplicate, or add clips.

The model writes each stage as pure functions over immutable datatypes. The
commands are an emitted `Cmd` datatype; executing them happens elsewhere and
is not modelled. `ClipEdits.Replay` is a reference meaning for the commands a
clip receives about itself: move, and add/modify/delete a transition. The
commit lemmas state what those commands do to the clip through it.

Modules, one file each:

- `Timeline` (`timeline.dfy`): the data model, `same_sign` and the hit test.
- `Clamps` (`clamps.dfy`): one-sided bounds and what chaining them achieves.
- `Validate` (`validate.dfy`): the per-tool checks of `update_ghosts`, each
  proved equal to a chain of bounds, and the track walk.
- `GhostUpdate` (`apply.dfy`): how validated differences are applied to
  ghosts and selections.
- `Seeding` (`seeding.dfy`): `init_ghosts`, the ghost choice of the drag,
  slide neighbours, drop layout and linking.
- `RipplePrep` (`ripple_prep.dfy`): the ripple axis and the pre/post lists.
- `ClipEdits` (`clip_edits.dfy`): the per-clip commands of a commit
  (transition fitting, transition ghosts, the transition tool) and `Replay`.
- `Commit` (`commit.dfy`): ripple, insert, duplicate, move and drop commits.
- `RippleGap` (`ripple_gap.dfy`): the gap the context menu offers to
  ripple-delete.

## Model

| member | source | states |
|---|---|---|
| Timeline.ClipIndexFrom | ui/timelinewidget.cpp:2596-2604 | The scan from index `from` returns the first clip that lies on the track and covers the frame half-open. It returns -1 exactly when no clip from `from` on does. |
| Timeline.ClipIndexAt | ui/timelinewidget.cpp:2596-2604 | `getClipIndexFromCoords` returns -1 iff no clip covers `[in, out)` at the frame on the track. Otherwise it returns the lowest such index. |
| Clamps.Clamp | ui/timelinewidget.cpp:1355 | A single check moves the difference onto its bound, and only when the bound is violated. An upper bound never raises the difference and a lower bound never lowers it. |
| Clamps.ClampAllKeepsEarlier | ui/timelinewidget.cpp:1336-1479 | The bounds are pairwise compatible and the difference already meets the earlier ones. Then each later check keeps every bound established before it. |
| Clamps.ClampAllMeets | ui/timelinewidget.cpp:1336-1479 | If the bounds are jointly compatible, the chained checks end inside all of them, whatever the starting difference. |
| Clamps.ClampAllKeeps | ui/timelinewidget.cpp:1336-1479 | A difference inside every bound passes the chain unchanged. |
| Clamps.ClampAllAppend | ui/timelinewidget.cpp:1337-1480 | Checking against the concatenation of two bound lists is checking against the first and then the second. This is the ghost loop split at any ghost. |
| Clamps.ConsistentIffSatisfiable | ui/timelinewidget.cpp:1336-1479 | Pairwise compatibility of the bounds (no lower bound above an upper bound) holds iff some difference meets them all. |
| Clamps.MeetsAllConcat | ui/timelinewidget.cpp:1337-1480 | A difference meets two concatenated bound lists iff it meets each. |
| Validate.PreClampIsClampAll | ui/timelinewidget.cpp:1402-1413 | The collision checks of one post clip against the pre list are exactly a chain of one-sided bounds. |
| Validate.RippleClampIsClampAll | ui/timelinewidget.cpp:1390-1415 | The ripple checks over all post clips are exactly a chain of bounds. These are the frame-0 bound on an in-point trim plus the collision bounds. |
| Validate.TrimClampIsClampAll | ui/timelinewidget.cpp:1361-1388 | The trim-in checks (length, frame 0, finite `clip_in`) and the trim-out checks (length, media end) are chains of one-sided bounds. |
| Validate.GhostClampIsClampAll | ui/timelinewidget.cpp:1347-1479 | For a well-formed ghost, each tool's checks equal a chain of bounds. This includes the slip and transition-tool tests that reuse a stale `validator` value. |
| Validate.ValidateFrameIsClampAll | ui/timelinewidget.cpp:1336-1480 | The whole validation loop over the ghosts equals one chain over all their bounds in order. |
| Validate.PreLegalIffMeets | ui/timelinewidget.cpp:1402-1413 | A post clip is clear of every pre clip on its track iff the difference meets its collision bounds. |
| Validate.RippleLegalIffMeets | ui/timelinewidget.cpp:1390-1415 | Every post clip stays at or after frame 0 and clear of the pre clips iff the difference meets the ripple bounds. |
| Validate.GhostLegalIffMeets | ui/timelinewidget.cpp:1347-1479 | A ghost is legal for the active tool iff the difference meets its bounds. |
| Validate.AllLegalIffMeets | ui/timelinewidget.cpp:1336-1480 | All ghosts are legal iff the difference meets all their bounds. |
| Validate.ValidatedIsLegal | ui/timelinewidget.cpp:1336-1480 | If some difference is legal for every ghost at once, then the validated difference is legal for every ghost. For a trim this means: at least one frame long, not before frame 0, `clip_in` inside a finite source, ripple post clips clear of pre clips. |
| Validate.RippleClampKeeps | ui/timelinewidget.cpp:1390-1415 | A difference that keeps every post clip legal passes the ripple checks unchanged. |
| Validate.GhostClampKeeps | ui/timelinewidget.cpp:1347-1479 | A difference already legal for a ghost passes that ghost's checks unchanged. |
| Validate.LegalIsKept | ui/timelinewidget.cpp:1336-1480 | Validation is the identity on a difference that is legal for every ghost. |
| Validate.ChangedMeansIllegal | ui/timelinewidget.cpp:1336-1481 | When validation changes the difference, some ghost was illegal under the proposed one. |
| Validate.WalkTrack | ui/timelinewidget.cpp:1437-1446 | The walk ends with `old_track + r` on the same side as `old_track`. It leaves a side-keeping difference alone, moves only toward the sign boundary, and otherwise stops on track -1 or 0. |
| Validate.ValidateTrackDirection | ui/timelinewidget.cpp:1437-1446 | Over all ghosts, the track difference only decreases when the drag started on video and only increases when it started on audio. |
| Validate.ValidateTrackKeepsSides | ui/timelinewidget.cpp:1437-1446 | Using `same_sign` (lines 228-230): after the whole walk, every ghost that walks (it is on the drag's starting side) stays on its own side, whatever the order of the ghosts. |
| GhostUpdate.UpdateGhosts | ui/timelinewidget.cpp:1303-1559 | One mouse move keeps the ghost and selection counts. The frame difference it applies is the validated one, and the track difference is the walked one. |
| GhostUpdate.ApplyZeroIsIdentity | ui/timelinewidget.cpp:1484-1527 | Applying a zero difference to a ghost at its anchor leaves it as it is. |
| GhostUpdate.SnapKeptIffLegal | ui/timelinewidget.cpp:1336-1481 | Given that some difference is legal, the snap survives exactly when the snapped difference was already legal for every ghost. |
| GhostUpdate.SlipKeepsPlaceAndMedia | ui/timelinewidget.cpp:1350-1360 | With the apply step at lines 1487-1488, a slip of a clip with a finite source sets `clip_in = old_clip_in - d` within `[0, media_length - ghost_length]`. It leaves in, out and track untouched. |
| GhostUpdate.TrimmedEdgesLegal | ui/timelinewidget.cpp:1361-1415 | With the apply step at lines 1489-1495: after a trim-in: `ghost_length - d >= 1`, `old_in + d >= 0`, and `clip_in >= 0` for a finite source. After a trim-out: `ghost_length + d >= 1` and the end stays inside the media. Only the trimmed edge moves. |
| GhostUpdate.MoveIsRigid | ui/timelinewidget.cpp:1416-1419 | With the apply step at lines 1496-1499, a moved or slid ghost shifts both ends by the same `d`, so its length is kept, and `old_in + d >= 0`. |
| GhostUpdate.TrackSidesKept | ui/timelinewidget.cpp:1505-1517 | After the track walk of lines 1437-1446, every moved ghost lands on a track on the same side as its anchor track, in import mode too. Ghosts that are not moved keep their track. |
| GhostUpdate.SelectionsFollow | ui/timelinewidget.cpp:1529-1559 | Outside slip, import and trims, every selection shifts rigidly by the validated difference: its in point moves by `d` and its length is kept. |
| GhostUpdate.SlipExample | ui/timelinewidget.cpp:1350-1360 | Slipping a 40-frame clip (`clip_in` 10, 60 frames of media) by -5 gives `clip_in` 15. Asking for -30 clamps to 20. |
| GhostUpdate.VideoStaysVideoExample | ui/timelinewidget.cpp:1437-1446 | Dragging a clip from video track -1 toward audio track 0 leaves it on -1. |
| Seeding.InitGhost | ui/timelinewidget.cpp:1268-1294 | A seeded ghost is anchored (current equals old position) when its part exists. It keeps its clip, part and trim flags, and takes the clip's track and maximum length. |
| Seeding.InitGhostCoversPart | ui/timelinewidget.cpp:1276-1290 | A seeded ghost covers exactly its part of the clip (whole clip, opening or closing transition) and shows the source frames the clip shows there. |
| Seeding.InitGhosts | ui/timelinewidget.cpp:1269-1294 | Seeding keeps each ghost's clip and part and anchors every ghost whose part exists. |
| Seeding.InitSelections | ui/timelinewidget.cpp:1295-1300 | Every selection's old position becomes its current one, and the count is kept. |
| Seeding.SeededStartIsLegal | ui/timelinewidget.cpp:1268-1301 | Ghosts seeded from well-formed clips are well-formed, legal at difference 0, and so jointly satisfiable. For every tool but ripple, validation therefore always finds a legal difference. For the ripple tool this holds only provided the pre and post clips are already clear at difference 0, which the lemma requires rather than derives. |
| Seeding.CoveredFrom | ui/timelinewidget.cpp:1684-1701 | The transition found is one that some selection on the track covers exactly. It is none iff no selection covers either transition. |
| Seeding.SelectGhostsFromOrdered | ui/timelinewidget.cpp:1673-1711 | The ghosts of the drag from clip `i` on come in strictly increasing clip order. |
| Seeding.SelectGhostsFromSound | ui/timelinewidget.cpp:1673-1711 | Every ghost created stands for a selected clip, or (pointer tool) for a transition that a selection covers. |
| Seeding.SelectGhostsFromComplete | ui/timelinewidget.cpp:1673-1711 | Every grabbed clip from `i` on gets a ghost. |
| Seeding.SelectGhosts | ui/timelinewidget.cpp:1673-1711 | One ghost per grabbed clip, in clip order: exactly the selected clips plus, with the pointer, clips one of whose transitions a selection covers. |
| Seeding.NeighboursFromSound | ui/timelinewidget.cpp:1772-1794 | Every ghost the scan from clip `j` adds trims a clip on the ghost clip's track that touches it and has no ghost, at the shared edge. |
| Seeding.NeighboursFromComplete | ui/timelinewidget.cpp:1772-1794 | Every such touching, ghost-less clip from `j` on gets a ghost from the scan. |
| Seeding.NeighboursFromExact | ui/timelinewidget.cpp:1772-1794 | The scan from clip `j` adds a trimming ghost for exactly the clips on the ghost clip's track that touch it and have no ghost. Each trims at the shared edge. |
| Seeding.NeighboursOfAllExact | ui/timelinewidget.cpp:1768-1795 | Over all slid ghosts, the added ghosts are exactly the neighbours of each slid clip. |
| Seeding.SlideNeighbours | ui/timelinewidget.cpp:1767-1796 | The slid ghosts stop trimming. Every touching neighbour gets a ghost trimming the shared edge, and nothing else is added. |
| Seeding.ItemGhosts | ui/timelinewidget.cpp:402-455 | Every ghost of a dropped item enters at the entry point and spans the item's extent: 100 frames for a still image, otherwise its length cut to its marks. It plays the item's media (`g.media = media`, so two items of one media give ghosts of equal media), records the item's position as its slot, stands for a new clip, is anchored and does not trim. |
| Seeding.ItemGhostsOnTheirSide | ui/timelinewidget.cpp:412-453 | A footage ghost on track `j >= 0` plays audio stream `j`, and one on track `-1-j` plays video stream `j`. A sequence's ghosts sit on tracks -1 and 0. There is one ghost per stream (two for a sequence, none when the item cannot be imported). |
| Seeding.LayoutFromOrdered | ui/timelinewidget.cpp:365-456 | The drop ghosts come in item order. |
| Seeding.ItemGhostsLaidOut | ui/timelinewidget.cpp:402-455 | Each item's ghosts play that item's media and span exactly that item's slot of the layout. |
| Seeding.TwiceDraggedShareMedia | ui/timelinewidget.cpp:402-455 | One footage item dragged twice gives two ghosts in consecutive slots, 0-10 and 10-20, that carry the same media, so the drop links the two added clips to each other. |
| Seeding.AllLaidOutConcat | ui/timelinewidget.cpp:365-456 | Laying out is preserved by concatenation of ghost lists. |
| Seeding.LayoutFromAbuts | ui/timelinewidget.cpp:365-456 | From item `id` on, every ghost spans its item's slot, which starts where the previous importable item ends. |
| Seeding.DropLayoutAbuts | ui/timelinewidget.cpp:365-462 | Successive dropped media abut: the ghosts of item `i + 1` start where those of item `i` end. Every ghost spans its item's slot, and the ghosts follow item order. |
| Seeding.LinkDropped | ui/timelinewidget.cpp:667-676 | Each added clip links, in increasing order, exactly the other added clips of the same media. Links are symmetric and never reflexive. |
| RipplePrep.FirstFurther | ui/timelinewidget.cpp:1806-1815 | The search returns the first axis clip on the same track that the new clip lies further out than, or the end. |
| RipplePrep.AxisInsertKeeps | ui/timelinewidget.cpp:1803-1819 | Filing a clip into the axis keeps every earlier clip matched by an axis clip on its track at least as far out, and matches the new clip too. |
| RipplePrep.AxisInsertNew | ui/timelinewidget.cpp:1803-1819 | The filed clip is matched by an axis clip on its track at least as far out. |
| RipplePrep.AxisInsertFromGhosts | ui/timelinewidget.cpp:1803-1819 | Every axis clip stays the clip of some ghost. |
| RipplePrep.AxisFromCovers | ui/timelinewidget.cpp:1803-1819 | After the loop from ghost `i`, every ghost's clip is matched by an axis clip on its track lying at least as far out, and every axis clip is a ghost's clip. |
| RipplePrep.AxisDominates | ui/timelinewidget.cpp:1801-1819 | The ripple axis holds only ghost clips and, per track, one lying at least as far out as each ghost clip there. |
| RipplePrep.FirstOnTrack | ui/timelinewidget.cpp:1830-1839 | The list search returns the first entry on the track, or the end. |
| RipplePrep.BucketOnePerTrack | ui/timelinewidget.cpp:1828-1842 | Filing a clip into a pre or post list keeps at most one entry per track. |
| RipplePrep.BucketCovers | ui/timelinewidget.cpp:1828-1842 | After filing, the list holds, on each filed clip's track, an entry at least as near the axis point: starting no earlier (pre) or no later (post). |
| RipplePrep.BucketCoversNew | ui/timelinewidget.cpp:1828-1842 | The clip just filed is covered by the list. |
| RipplePrep.BucketFrom | ui/timelinewidget.cpp:1828-1842 | Filing only ever writes the filed clip. |
| RipplePrep.FileAgainstKeeps | ui/timelinewidget.cpp:1824-1843 | Filing one clip against every axis point keeps the lists one-per-track and sound, and covers it on every side it falls on. |
| RipplePrep.FileFromKeeps | ui/timelinewidget.cpp:1821-1845 | The loop over the clips keeps that for every unselected clip seen. |
| RipplePrep.RippleListsNearest | ui/timelinewidget.cpp:1821-1845 | The pre and post lists hold at most one clip per track. Each is a present, unselected clip on the right side of an axis point, and every candidate is matched by an entry at least as near. |
| ClipEdits.ReplayConcat | ui/timelinewidget.cpp:990-1154 | Replaying two command lists in a row is replaying their concatenation. |
| ClipEdits.ReplayOne | ui/timelinewidget.cpp:990-1154 | Replaying a single command is one step. |
| ClipEdits.ReplayShrink | ui/timelinewidget.cpp:1100-1117 | A transition with no room left is deleted, one longer than the room is cut to the room, and any other is kept. Nothing else on the clip changes. |
| ClipEdits.ReplayFit | ui/timelinewidget.cpp:1095-1118 | After fitting to a new length, for each transition with `max` = new length minus the other transition's length: deleted when `max <= 0`, shortened to `max` when longer, kept otherwise. |
| ClipEdits.BodyCommitFits | ui/timelinewidget.cpp:1095-1118 | After moving or trimming a whole clip, it sits where its ghost was shown (in, out, `clip_in`, track). Whatever transitions remain are positive and fit side by side. |
| ClipEdits.FittingTransitionsKept | ui/timelinewidget.cpp:1100-1117 | Transitions that already fit the new length cause no command. |
| ClipEdits.ReplaySpare | ui/timelinewidget.cpp:1127-1150 | The other transition is deleted when there is no room, shortened when the two would overlap, and kept otherwise. |
| ClipEdits.ReplayTransitionGhost | ui/timelinewidget.cpp:1119-1153 | Committing a transition ghost (as written or corrected) has a fixed effect. The transition takes the ghost's length, the clip's edge follows the ghost's edge, and the other transition is spared per the test in use. |
| ClipEdits.TransitionGhostSparesOther | ui/timelinewidget.cpp:1119-1153 | With the corrected test, the dragged transition has the ghost's length and the edge follows the ghost. The other transition is gone, or positive with the two fitting in the clip. |
| ClipEdits.NegativeTransitionLength | ui/timelinewidget.cpp:1130-1134 | The input of the finding below. As written, the closing transition is set to -5 frames. With the corrected test it is deleted. |
| ClipEdits.TransitionToolClearsOutside | ui/timelinewidget.cpp:1160-1213 | Every area the transition tool clears is on the clip's track, non-empty, and outside the clip. |
| ClipEdits.ReplayRoom | ui/timelinewidget.cpp:1166-1195 | Making room sets the drawn transition. The other transition is deleted when the drawn range reaches the clip's far edge (`te >= timeline_out` for a new opening, `ts <= timeline_in` for a new closing). It is shortened to end at the drawn range when they overlap, and kept when clear. |
| ClipEdits.ReplayExtend | ui/timelinewidget.cpp:1196-1211 | When the drawn range reaches outside the clip, the clip is extended over it. Otherwise the clip is kept. |
| ClipEdits.TransitionToolMakesRoom | ui/timelinewidget.cpp:1160-1213 | A drawn transition ends up on the clip with the drawn length, inside the clip, keeping `clip_in` and track. The other transition is gone, or positive and clear of it. |
| ClipEdits.TransitionToolFromEdge | ui/timelinewidget.cpp:1160-1213 | An opening drawn from the clip's in point starts at the edited clip's in point. A closing drawn to its out point ends at the edited clip's out point. |
| Commit.Least | ui/timelinewidget.cpp:532-534 | The minimum of a non-empty list is an element that bounds every element below. |
| Commit.Greatest | ui/timelinewidget.cpp:533-535 | The maximum of a non-empty list is an element that bounds every element above. |
| Commit.RippleCommit | ui/timelinewidget.cpp:995-1025 | The ripple point is the earliest anchor on the trimmed side and is attained. An in-point trim ignores exactly the ghosts' clips. An out-point ripple ignores nothing and keeps the ghosts. |
| Commit.RippleByLengthChange | ui/timelinewidget.cpp:995-1025 | For a uniform trim by `d`, the ripple length is the change in clip length. After an in-point ripple, the ghosts are back at their old in point and lose `d` frames at their end. |
| Commit.RippleDragIsUniform | ui/timelinewidget.cpp:1489-1495 | A ripple drag trims every trimming ghost by the same validated difference on the same side. The precondition of `RippleByLengthChange` therefore holds after a drag. |
| Commit.SplitsFrom | ui/timelinewidget.cpp:544-549 | A split at the earliest new point is emitted exactly for the clips that straddle it. |
| Commit.ClearFrom | ui/timelinewidget.cpp:544-556 | The scan succeeds iff every other clip from `i` on lies wholly before or after the old span. |
| Commit.IgnoreOf | ui/timelinewidget.cpp:537-541 | The ignore list holds exactly the clips of the ghosts that have one. |
| Commit.InsertClips | ui/timelinewidget.cpp:519-587 | An insert emits one or two ripples, keeps ghost and selection counts, and only shifts ghosts along the timeline. |
| Commit.InsertOpensSpan | ui/timelinewidget.cpp:529-564 | The insert splits exactly the clips straddling the earliest new start. Its first ripple starts there and is as long as the ghosts' whole new span (both ends attained), ignoring the ghosts' clips. |
| Commit.InsertClosesOldSpan | ui/timelinewidget.cpp:537-572 | A second ripple is emitted iff every ghost has a clip and no other clip overlaps the old span. It sits at the latest old end with length earliest old start minus latest old end. |
| Commit.InsertShiftsGhosts | ui/timelinewidget.cpp:566-586 | Ghosts and selections move by the second ripple's length exactly when it is emitted and the old span starts before the new one. Otherwise they stay. |
| Commit.InsertOfNewClips | ui/timelinewidget.cpp:537-572 | Ghosts of new clips (a drop) give a single ripple and move nothing. |
| Commit.MovedGhosts | ui/timelinewidget.cpp:1036-1037 | The moved ghosts are exactly the ghosts away from their anchor. |
| Commit.DuplicateCmds | ui/timelinewidget.cpp:1028-1061 | A duplicate only clears areas and adds copies, and emits nothing iff no ghost moved. |
| Commit.DuplicatePlacesCopies | ui/timelinewidget.cpp:1028-1061 | The duplicate clears exactly the moved ghosts' places. It adds one copy per moved ghost, of that ghost's clip, placed at the ghost and keeping the source offset. |
| Commit.MoveLoopHas | ui/timelinewidget.cpp:1088-1154 | Every command a ghost gives is in the move loop's output. |
| Commit.OnClipsFollows | ui/timelinewidget.cpp:574-579 | Shifting ghosts along the timeline keeps them on their clips. |
| Commit.AfterRipple | ui/timelinewidget.cpp:995-1025 | The ghosts after a ripple trim are the same ghosts, possibly shifted. |
| Commit.ReleaseCommit | ui/timelinewidget.cpp:990-1154 | The release commit only shifts ghosts and keeps the selection count. Unless duplicating, it ends with the move loop over the final ghosts. Transition ghosts use the corrected spare test (see "## Findings"). |
| Commit.DuplicateLeavesOriginals | ui/timelinewidget.cpp:1028-1061 | A duplicate never moves, trims or re-fits an existing clip. |
| Commit.MovedClipsLandOnGhosts | ui/timelinewidget.cpp:1088-1118 | Outside a duplicate, the commit moves the clip of every anchored whole-clip ghost to where the ghost is, after any ripple or insert shift. |
| Commit.BodyMoveLands | ui/timelinewidget.cpp:1095-1099 | A whole-clip ghost's commands move its clip to the ghost. |
| Commit.MoveClearsDestinations | ui/timelinewidget.cpp:1067-1086 | A pointer move without modifiers, or a slide, first clears the ghosts' places but keeps the moving clips themselves. |
| Commit.RippleTrimOutExample | ui/timelinewidget.cpp:995-1025 | Trimming the out point of a clip spanning 0–100 by -20 with the ripple tool emits a ripple at 100 of -20 frames and moves the clip's end to 80. |
| Commit.DropCommit | ui/timelinewidget.cpp:600-676 | A drop ends with one clip added per ghost, placed and linked to same-media clips. With no sequence it first creates one. Without ctrl it first clears the areas under the ghosts. With ctrl into an existing sequence, every command before the added clips is `insert_clips`' splits and ripples, so `Commit.InsertOpensSpan` and `Commit.InsertClosesOldSpan` describe them, and the clips are added where the insert leaves the ghosts. With ctrl, the added clips of a drop sit exactly where its ghosts are. |
| RippleGap.FindGap | ui/timelinewidget.cpp:102-129 | Ripple delete is offered iff no clip on the cursor's track touches the cursor frame and some clip reaches past it. The gap is bounded by the nearest clip end before the cursor (or 0) and the nearest clip start after it (or the largest `long`), both attained. |
| RippleGap.OfferedGapIsEmpty | ui/timelinewidget.cpp:102-129 | An offered gap, which `right_click_ripple` (lines 59-70) deletes, holds the cursor and no well-formed clip of the cursor's track overlaps it, so the ripple delete removes only empty frames. |

## Left out

- Painting, waveforms and colours (`paintEvent`, `draw_waveform`, `color_brightness`, the clip colours of a drop): pixel drawing and floating point.
- Screen-to-track and screen-to-frame mapping, hover trim-target detection (lines 1959-2076) and track resizing: these depend on widget geometry and a floating-point zoom. The frame and track differences, the mouse track and the trim target are inputs.
- `snap_to_timeline` is defined in another file. The post-snap frame difference is an input; only the `snapped` flag is modelled.
- `is_clip_selected` is defined in another file. It is an input set of clip indices.
- Media probing when a drag enters: the blocking wait, file-list I/O, sequence-setting prediction with floating-point frame rates, and `refactor_frame_number`. An item's marks and length are given integers.
- Execution of the emitted commands (`RippleCommand`, `split_clip_and_relink`, `delete_areas_and_relink`, relinking, the undo stack) lives in other files. `ClipEdits.Replay` gives only a clip's own move and transition commands a meaning.
- The rolling-tool ghost pairing (lines 1714-1766): its in-place removal while iterating has no clear invariant. Rolling ghosts are seeded like any other selected clip.
- The release branches for creating clips, the razor tool and selection changes, and the tooltip of `earliest_in_point`: these are UI and other command kinds.
- Context menu chrome, renaming, autoscale, wheel scrolling, effect creation: UI only.
- Seeding.ItemGhosts: the source leaves a drop ghost's length and media length unset. The model sets both to 0, and these fields are read only by trims, never by a drop. A dropped sequence's stream is likewise unset and is 0 here.
- RippleGap.OfferedGapIsEmpty: `lo < frame` is stated only for a cursor after frame 0, because the lower end starts at 0. `frame < hi` is stated only below the largest `long`. Clips whose start lies after their end are excluded from the overlap claim.
- RippleGap.FindGap: 64-bit overflow is not modelled; frames are unbounded integers.
- Commit.InsertClips: the closing ripple is modelled as written. It is asymmetric (it works for moving later clips earlier only), and no symmetry is claimed.
- Commit.ReleaseCommit: the move loop emits the corrected transition-ghost commands (`>=`, see "## Findings"). The source's `==` test at lines 1130-1137 and 1145-1151 differs when a transition ghost is longer than its shrunken clip. There the model deletes the other transition, while the source sets it to a negative length. The commands as written are `ClipEdits.TransitionGhostCmdsAsWritten`, and `ClipEdits.NegativeTransitionLength` exhibits the difference.
- Seeding.SeededStartIsLegal: for the ripple tool, that the pre and post clips are clear at difference 0 is a precondition, not derived from the seeding; the ripple lists are built from clips outside the selection, and the model does not prove them clear of the ghosts.
- Validate.GhostBounded: a ghost with no clip, such as a drop ghost, counts as having an unbounded source, so the slip checks leave the difference alone. In the source a drag-and-drop calls `update_ghosts` whatever the tool (lines 467-470). With the slip tool selected, line 1351 then reads the media type through a null clip pointer. The model does not represent that crash. The same holds for a footage clip whose stream lookup finds nothing (`NoStream`): line 1352 reads `infinite_length` through the returned pointer without a null test, while the model counts such a clip as unbounded and lets the slip checks pass the difference unchanged. The trim and move checks do test the pointer, and the model follows them there.
- Commit.MoveLoop: has no contract of its own. What it emits is stated per ghost by `Commit.MoveLoopHas`, `Commit.MovedClipsLandOnGhosts` and the `ClipEdits` lemmas.

## Findings

| source | as written | input that shows it | evidently intended | confidence | as-written member | corrected member |
|---|---|---|---|---|---|---|
| ui/timelinewidget.cpp:1130-1134 (and 1145-1149 for a closing ghost) | After a transition ghost is committed, the other transition is deleted only when the new transition is exactly as long as the clip (`==`). Otherwise it is shortened to clip length minus new length. | Clip at frames 0–100, `clip_in` 0, 1000 frames of source, 10-frame opening and closing transitions. Its opening-transition ghost is dragged 95 frames later with the pointer, which validation allows. The ghost then spans 95–105, the clip becomes 95–100 (5 frames), and the new opening is 10 frames. The closing transition is set to 5 − 10 = −5 frames. | Delete the other transition whenever the new one is at least as long as the clip (`>=`). | not executed | ClipEdits.NegativeTransitionLength (via ClipEdits.TransitionGhostCmdsAsWritten) | ClipEdits.TransitionGhostSparesOther (via ClipEdits.TransitionGhostCmds) |
