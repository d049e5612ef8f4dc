/** Ripple-tool gesture start: the axis clips the ripple is measured from,
    and the pre and post clip lists the validator keeps the ripple away from.
    Each list keeps at most one clip per track: the pre list the latest
    starting clip before an axis point, the post list the earliest starting
    clip at or after one. */
module RipplePrep {
  import opened Timeline
  import opened Validate

  // ---------------------------------------------------------------------
  // Axis clips

  /** `a` is at least as far out as `c` on its track: it starts no later
      (trimming in points) or ends no earlier (trimming out points). */
  predicate Dominates(a: Clip, c: Clip, trimIn: bool) {
    a.track == c.track && (if trimIn then a.timelineIn <= c.timelineIn else a.timelineOut >= c.timelineOut)
  }

  function FirstFurther(axis: seq<Clip>, c: Clip, trimIn: bool, j: nat): (r: nat)
    requires j <= |axis|
    ensures j <= r <= |axis|
    ensures r < |axis| ==> axis[r].track == c.track && !Dominates(axis[r], c, trimIn)
    decreases |axis| - j
  {
    if j == |axis| then j
    else if axis[j].track == c.track &&
            (if trimIn then c.timelineIn < axis[j].timelineIn else c.timelineOut > axis[j].timelineOut)
    then j
    else FirstFurther(axis, c, trimIn, j + 1)
  }

  /** The ghost clip `c` replaces the first axis clip on its track that it
      lies further out than; otherwise it is appended. */
  function AxisInsert(axis: seq<Clip>, c: Clip, trimIn: bool): seq<Clip> {
    var j := FirstFurther(axis, c, trimIn, 0);
    if j < |axis| then axis[j := c] else axis + [c]
  }

  function AxisFrom(clips: Clips, gs: seq<Ghost>, trimIn: bool, i: nat, axis: seq<Clip>): seq<Clip>
    requires i <= |gs|
    requires OnClips(clips, gs)
    decreases |gs| - i
  {
    if i == |gs| then axis
    else AxisFrom(clips, gs, trimIn, i + 1, AxisInsert(axis, ClipOf(clips, gs[i]), trimIn))
  }

  function Axis(clips: Clips, gs: seq<Ghost>, trimIn: bool): seq<Clip>
    requires OnClips(clips, gs)
  {
    AxisFrom(clips, gs, trimIn, 0, [])
  }

  /** Every clip of `axis` is the clip of some ghost. */
  ghost predicate FromGhosts(clips: Clips, gs: seq<Ghost>, axis: seq<Clip>)
    requires OnClips(clips, gs)
  {
    forall a :: 0 <= a < |axis| ==> exists k :: 0 <= k < |gs| && axis[a] == ClipOf(clips, gs[k])
  }

  ghost predicate DominatedBy(axis: seq<Clip>, c: Clip, trimIn: bool) {
    exists a :: 0 <= a < |axis| && Dominates(axis[a], c, trimIn)
  }

  lemma AxisInsertKeeps(axis: seq<Clip>, c: Clip, trimIn: bool, e: Clip)
    requires DominatedBy(axis, e, trimIn)
    ensures DominatedBy(AxisInsert(axis, c, trimIn), e, trimIn)
    ensures DominatedBy(AxisInsert(axis, c, trimIn), c, trimIn)
  {
    var j := FirstFurther(axis, c, trimIn, 0);
    var r := AxisInsert(axis, c, trimIn);
    var a :| 0 <= a < |axis| && Dominates(axis[a], e, trimIn);
    if j < |axis| {
      assert Dominates(r[j], c, trimIn);
      if a == j {
        assert Dominates(r[j], e, trimIn);
      } else {
        assert r[a] == axis[a];
      }
    } else {
      assert r[a] == axis[a];
      assert r[|axis|] == c;
    }
  }

  lemma AxisInsertNew(axis: seq<Clip>, c: Clip, trimIn: bool)
    ensures DominatedBy(AxisInsert(axis, c, trimIn), c, trimIn)
  {
    var j := FirstFurther(axis, c, trimIn, 0);
    var r := AxisInsert(axis, c, trimIn);
    if j < |axis| {
      assert Dominates(r[j], c, trimIn);
    } else {
      assert r[|axis|] == c;
    }
  }

  lemma AxisInsertFromGhosts(clips: Clips, gs: seq<Ghost>, trimIn: bool, i: nat, axis: seq<Clip>)
    requires i < |gs| && OnClips(clips, gs)
    requires FromGhosts(clips, gs, axis)
    ensures FromGhosts(clips, gs, AxisInsert(axis, ClipOf(clips, gs[i]), trimIn))
  {
    var c := ClipOf(clips, gs[i]);
    var next := AxisInsert(axis, c, trimIn);
    var j := FirstFurther(axis, c, trimIn, 0);
    forall a | 0 <= a < |next| ensures exists k :: 0 <= k < |gs| && next[a] == ClipOf(clips, gs[k]) {
      if a < |axis| && !(j < |axis| && a == j) {
        assert next[a] == axis[a];
      } else {
        assert next[a] == ClipOf(clips, gs[i]);
      }
    }
  }

  lemma {:induction false} AxisFromCovers(clips: Clips, gs: seq<Ghost>, trimIn: bool, i: nat, axis: seq<Clip>)
    requires i <= |gs|
    requires OnClips(clips, gs)
    requires forall k :: 0 <= k < i ==> DominatedBy(axis, ClipOf(clips, gs[k]), trimIn)
    ensures forall k :: 0 <= k < |gs| ==> DominatedBy(AxisFrom(clips, gs, trimIn, i, axis), ClipOf(clips, gs[k]), trimIn)
    decreases |gs| - i
  {
    if i < |gs| {
      var next := AxisInsert(axis, ClipOf(clips, gs[i]), trimIn);
      AxisInsertCovers(clips, gs, trimIn, i, axis);
      AxisFromCovers(clips, gs, trimIn, i + 1, next);
      assert AxisFrom(clips, gs, trimIn, i, axis) == AxisFrom(clips, gs, trimIn, i + 1, next);
    } else {
      assert AxisFrom(clips, gs, trimIn, i, axis) == axis;
    }
  }

  lemma {:induction false} AxisFromFromGhosts(clips: Clips, gs: seq<Ghost>, trimIn: bool, i: nat, axis: seq<Clip>)
    requires i <= |gs|
    requires OnClips(clips, gs)
    requires FromGhosts(clips, gs, axis)
    ensures FromGhosts(clips, gs, AxisFrom(clips, gs, trimIn, i, axis))
    decreases |gs| - i
  {
    if i < |gs| {
      var next := AxisInsert(axis, ClipOf(clips, gs[i]), trimIn);
      AxisInsertFromGhosts(clips, gs, trimIn, i, axis);
      AxisFromFromGhosts(clips, gs, trimIn, i + 1, next);
      assert AxisFrom(clips, gs, trimIn, i, axis) == AxisFrom(clips, gs, trimIn, i + 1, next);
    } else {
      assert AxisFrom(clips, gs, trimIn, i, axis) == axis;
    }
  }

  /** Filing ghost `i`'s clip keeps the clips of ghosts `0..i` matched. */
  lemma AxisInsertCovers(clips: Clips, gs: seq<Ghost>, trimIn: bool, i: nat, axis: seq<Clip>)
    requires i < |gs|
    requires OnClips(clips, gs)
    requires forall k :: 0 <= k < i ==> DominatedBy(axis, ClipOf(clips, gs[k]), trimIn)
    ensures forall k :: 0 <= k < i + 1 ==> DominatedBy(AxisInsert(axis, ClipOf(clips, gs[i]), trimIn), ClipOf(clips, gs[k]), trimIn)
  {
    var c := ClipOf(clips, gs[i]);
    forall k | 0 <= k < i + 1 ensures DominatedBy(AxisInsert(axis, c, trimIn), ClipOf(clips, gs[k]), trimIn) {
      if k < i {
        AxisInsertKeeps(axis, c, trimIn, ClipOf(clips, gs[k]));
      } else {
        AxisInsertNew(axis, c, trimIn);
      }
    }
  }

  /** Each axis clip is a ghost's clip, and every ghost's clip is matched by
      an axis clip on its track lying at least as far out. */
  lemma AxisDominates(clips: Clips, gs: seq<Ghost>, trimIn: bool)
    requires OnClips(clips, gs)
    ensures FromGhosts(clips, gs, Axis(clips, gs, trimIn))
    ensures forall k :: 0 <= k < |gs| ==> DominatedBy(Axis(clips, gs, trimIn), ClipOf(clips, gs[k]), trimIn)
  {
    AxisFromCovers(clips, gs, trimIn, 0, []);
    AxisFromFromGhosts(clips, gs, trimIn, 0, []);
  }

  // ---------------------------------------------------------------------
  // Pre and post clips

  /** At most one entry per track. */
  predicate OnePerTrack(list: seq<Placed>) {
    forall k, l :: 0 <= k < l < |list| ==> list[k].clip.track != list[l].clip.track
  }

  function FirstOnTrack(list: seq<Placed>, track: int, k: nat): (r: nat)
    requires k <= |list|
    ensures k <= r <= |list|
    ensures r < |list| ==> list[r].clip.track == track
    ensures forall m :: k <= m < r ==> list[m].clip.track != track
    decreases |list| - k
  {
    if k == |list| then k
    else if list[k].clip.track == track then k
    else FirstOnTrack(list, track, k + 1)
  }

  /** Files `p` into a list: it replaces the list's clip on its track when it
      starts later (pre list) or no later (post list), and is appended when
      the track has no clip yet. */
  function Bucket(list: seq<Placed>, p: Placed, isPre: bool): seq<Placed> {
    var k := FirstOnTrack(list, p.clip.track, 0);
    if k == |list| then list + [p]
    else if isPre == (p.clip.timelineIn > list[k].clip.timelineIn) then list[k := p]
    else list
  }

  /** The list holds a clip on `c`'s track starting at or after `c` (pre)
      or at or before `c` (post). */
  ghost predicate Covers(list: seq<Placed>, c: Clip, isPre: bool) {
    exists k :: 0 <= k < |list| && list[k].clip.track == c.track &&
      (if isPre then list[k].clip.timelineIn >= c.timelineIn else list[k].clip.timelineIn <= c.timelineIn)
  }

  lemma BucketOnePerTrack(list: seq<Placed>, p: Placed, isPre: bool)
    requires OnePerTrack(list)
    ensures OnePerTrack(Bucket(list, p, isPre))
  {
    var k := FirstOnTrack(list, p.clip.track, 0);
    var r := Bucket(list, p, isPre);
    if k == |list| {
      forall a, b | 0 <= a < b < |r| ensures r[a].clip.track != r[b].clip.track {
        if b == |list| {
          assert r[a] == list[a];
        }
      }
    }
  }

  lemma BucketCovers(list: seq<Placed>, p: Placed, isPre: bool, c: Clip)
    requires OnePerTrack(list)
    requires Covers(list, c, isPre)
    ensures Covers(Bucket(list, p, isPre), c, isPre)
    ensures Covers(Bucket(list, p, isPre), p.clip, isPre)
  {
    var k := FirstOnTrack(list, p.clip.track, 0);
    var r := Bucket(list, p, isPre);
    var m :| 0 <= m < |list| && list[m].clip.track == c.track &&
      (if isPre then list[m].clip.timelineIn >= c.timelineIn else list[m].clip.timelineIn <= c.timelineIn);
    if k == |list| {
      assert r[m] == list[m];
      assert r[|list|] == p;
    } else if isPre == (p.clip.timelineIn > list[k].clip.timelineIn) {
      assert r[k] == p;
      if m != k {
        assert r[m] == list[m];
      }
    } else {
      assert r[k] == list[k];
    }
  }

  lemma BucketCoversNew(list: seq<Placed>, p: Placed, isPre: bool)
    ensures Covers(Bucket(list, p, isPre), p.clip, isPre)
  {
    var k := FirstOnTrack(list, p.clip.track, 0);
    var r := Bucket(list, p, isPre);
    if k == |list| {
      assert r[|list|] == p;
    } else if isPre == (p.clip.timelineIn > list[k].clip.timelineIn) {
      assert r[k] == p;
    } else {
      assert r[k] == list[k];
    }
  }

  /** The two lists under construction. */
  datatype Lists = Lists(pre: seq<Placed>, post: seq<Placed>)

  /** The frame a clip is compared with: the axis clip's in point when
      trimming in points, its out point otherwise. */
  function Comp(a: Clip, trimIn: bool): int {
    if trimIn then a.timelineIn else a.timelineOut
  }

  /** Files `p` into the pre list when it starts before the axis clip's
      point, into the post list otherwise. */
  function FileOnce(ls: Lists, p: Placed, a: Clip, trimIn: bool): Lists {
    if p.clip.timelineIn < Comp(a, trimIn) then ls.(pre := Bucket(ls.pre, p, true))
    else ls.(post := Bucket(ls.post, p, false))
  }

  /** Files `p` once per axis clip, from axis clip `j` on. */
  function FileAgainst(ls: Lists, p: Placed, axis: seq<Clip>, trimIn: bool, j: nat): Lists
    requires j <= |axis|
    decreases |axis| - j
  {
    if j == |axis| then ls
    else FileAgainst(FileOnce(ls, p, axis[j], trimIn), p, axis, trimIn, j + 1)
  }

  /** Clip `i` is considered: present and not selected. */
  predicate Candidate(clips: Clips, selected: set<int>, i: int) {
    Present(clips, i) && i !in selected
  }

  function FileFrom(clips: Clips, selected: set<int>, axis: seq<Clip>, trimIn: bool, i: nat, ls: Lists): Lists
    requires i <= |clips|
    decreases |clips| - i
  {
    if i == |clips| then ls
    else
      var next := if Candidate(clips, selected, i) then FileAgainst(ls, Placed(i, clips[i].value), axis, trimIn, 0) else ls;
      FileFrom(clips, selected, axis, trimIn, i + 1, next)
  }

  /** The pre and post lists of a ripple drag. */
  function RippleLists(clips: Clips, selected: set<int>, axis: seq<Clip>, trimIn: bool): Lists {
    FileFrom(clips, selected, axis, trimIn, 0, Lists([], []))
  }

  ghost predicate BeforeSome(c: Clip, axis: seq<Clip>, trimIn: bool) {
    exists a :: 0 <= a < |axis| && c.timelineIn < Comp(axis[a], trimIn)
  }

  ghost predicate AfterSome(c: Clip, axis: seq<Clip>, trimIn: bool) {
    exists a :: 0 <= a < |axis| && c.timelineIn >= Comp(axis[a], trimIn)
  }

  /** Every entry is a considered clip, filed on the right side of some axis
      point, with its index. */
  ghost predicate Sound(clips: Clips, selected: set<int>, axis: seq<Clip>, trimIn: bool, ls: Lists) {
    && (forall k :: 0 <= k < |ls.pre| ==>
          Candidate(clips, selected, ls.pre[k].index) && ls.pre[k].clip == clips[ls.pre[k].index].value
          && BeforeSome(ls.pre[k].clip, axis, trimIn))
    && (forall k :: 0 <= k < |ls.post| ==>
          Candidate(clips, selected, ls.post[k].index) && ls.post[k].clip == clips[ls.post[k].index].value
          && AfterSome(ls.post[k].clip, axis, trimIn))
  }

  ghost predicate Shaped(ls: Lists) {
    OnePerTrack(ls.pre) && OnePerTrack(ls.post)
  }

  /** `c` is covered on each side it falls on. */
  ghost predicate Filed(ls: Lists, c: Clip, axis: seq<Clip>, trimIn: bool) {
    && (BeforeSome(c, axis, trimIn) ==> Covers(ls.pre, c, true))
    && (AfterSome(c, axis, trimIn) ==> Covers(ls.post, c, false))
  }

  /** Bucketing only ever writes `p`. */
  lemma BucketFrom(list: seq<Placed>, p: Placed, isPre: bool)
    ensures forall k :: 0 <= k < |Bucket(list, p, isPre)| ==>
              Bucket(list, p, isPre)[k] == p || (k < |list| && Bucket(list, p, isPre)[k] == list[k])
  {
  }

  /** What filing `p` against the axis clips before `j` has achieved. */
  ghost predicate FiledUpTo(clips: Clips, selected: set<int>, axis: seq<Clip>, trimIn: bool,
                            ls: Lists, p: Placed, j: nat, others: set<Clip>)
  {
    && j <= |axis|
    && Candidate(clips, selected, p.index) && p.clip == clips[p.index].value
    && Shaped(ls) && Sound(clips, selected, axis, trimIn, ls)
    && (forall c :: c in others ==> Filed(ls, c, axis, trimIn))
    && (forall a :: 0 <= a < j && p.clip.timelineIn < Comp(axis[a], trimIn) ==> Covers(ls.pre, p.clip, true))
    && (forall a :: 0 <= a < j && p.clip.timelineIn >= Comp(axis[a], trimIn) ==> Covers(ls.post, p.clip, false))
  }

  lemma FileStepPre(clips: Clips, selected: set<int>, axis: seq<Clip>, trimIn: bool,
                    ls: Lists, p: Placed, j: nat, others: set<Clip>)
    requires FiledUpTo(clips, selected, axis, trimIn, ls, p, j, others)
    requires j < |axis| && p.clip.timelineIn < Comp(axis[j], trimIn)
    ensures FiledUpTo(clips, selected, axis, trimIn, FileOnce(ls, p, axis[j], trimIn), p, j + 1, others)
  {
    var next := FileOnce(ls, p, axis[j], trimIn);
    assert next == ls.(pre := Bucket(ls.pre, p, true));
    BucketOnePerTrack(ls.pre, p, true);
    BucketCoversNew(ls.pre, p, true);
    BucketFrom(ls.pre, p, true);
    assert BeforeSome(p.clip, axis, trimIn);
    forall c | c in others ensures Filed(next, c, axis, trimIn) {
      if BeforeSome(c, axis, trimIn) { BucketCovers(ls.pre, p, true, c); }
    }
  }

  lemma FileStepPost(clips: Clips, selected: set<int>, axis: seq<Clip>, trimIn: bool,
                     ls: Lists, p: Placed, j: nat, others: set<Clip>)
    requires FiledUpTo(clips, selected, axis, trimIn, ls, p, j, others)
    requires j < |axis| && p.clip.timelineIn >= Comp(axis[j], trimIn)
    ensures FiledUpTo(clips, selected, axis, trimIn, FileOnce(ls, p, axis[j], trimIn), p, j + 1, others)
  {
    var next := FileOnce(ls, p, axis[j], trimIn);
    assert next == ls.(post := Bucket(ls.post, p, false));
    BucketOnePerTrack(ls.post, p, false);
    BucketCoversNew(ls.post, p, false);
    BucketFrom(ls.post, p, false);
    assert AfterSome(p.clip, axis, trimIn);
    forall c | c in others ensures Filed(next, c, axis, trimIn) {
      if AfterSome(c, axis, trimIn) { BucketCovers(ls.post, p, false, c); }
    }
  }

  /** Once `p` has met every axis clip, it is filed on each side it falls on. */
  lemma FiledAtEnd(clips: Clips, selected: set<int>, axis: seq<Clip>, trimIn: bool,
                   ls: Lists, p: Placed, others: set<Clip>)
    requires FiledUpTo(clips, selected, axis, trimIn, ls, p, |axis|, others)
    ensures forall c :: c in others + {p.clip} ==> Filed(ls, c, axis, trimIn)
  {
    forall c | c in others + {p.clip} ensures Filed(ls, c, axis, trimIn) {
      if c == p.clip {
        if BeforeSome(c, axis, trimIn) {
          var a :| 0 <= a < |axis| && c.timelineIn < Comp(axis[a], trimIn);
        }
        if AfterSome(c, axis, trimIn) {
          var a :| 0 <= a < |axis| && c.timelineIn >= Comp(axis[a], trimIn);
        }
      }
    }
  }

  lemma {:induction false} FileAgainstKeeps(clips: Clips, selected: set<int>, axis: seq<Clip>, trimIn: bool,
                                            ls: Lists, p: Placed, j: nat, others: set<Clip>)
    requires j <= |axis|
    requires Candidate(clips, selected, p.index) && p.clip == clips[p.index].value
    requires Shaped(ls) && Sound(clips, selected, axis, trimIn, ls)
    requires forall c :: c in others ==> Filed(ls, c, axis, trimIn)
    requires forall a :: 0 <= a < j && p.clip.timelineIn < Comp(axis[a], trimIn) ==> Covers(ls.pre, p.clip, true)
    requires forall a :: 0 <= a < j && p.clip.timelineIn >= Comp(axis[a], trimIn) ==> Covers(ls.post, p.clip, false)
    ensures Shaped(FileAgainst(ls, p, axis, trimIn, j))
    ensures Sound(clips, selected, axis, trimIn, FileAgainst(ls, p, axis, trimIn, j))
    ensures forall c :: c in others + {p.clip} ==> Filed(FileAgainst(ls, p, axis, trimIn, j), c, axis, trimIn)
    decreases |axis| - j
  {
    assert FiledUpTo(clips, selected, axis, trimIn, ls, p, j, others);
    if j == |axis| {
      FiledAtEnd(clips, selected, axis, trimIn, ls, p, others);
    } else {
      var next := FileOnce(ls, p, axis[j], trimIn);
      if p.clip.timelineIn < Comp(axis[j], trimIn) {
        FileStepPre(clips, selected, axis, trimIn, ls, p, j, others);
      } else {
        FileStepPost(clips, selected, axis, trimIn, ls, p, j, others);
      }
      FileAgainstKeeps(clips, selected, axis, trimIn, next, p, j + 1, others);
      assert FileAgainst(ls, p, axis, trimIn, j) == FileAgainst(next, p, axis, trimIn, j + 1);
    }
  }

  function ClipsBefore(clips: Clips, selected: set<int>, i: nat): set<Clip>
    requires i <= |clips|
  {
    set m | 0 <= m < i && Candidate(clips, selected, m) :: clips[m].value
  }

  lemma {:induction false} FileFromKeeps(clips: Clips, selected: set<int>, axis: seq<Clip>, trimIn: bool, i: nat, ls: Lists)
    requires i <= |clips|
    requires Shaped(ls) && Sound(clips, selected, axis, trimIn, ls)
    requires forall c :: c in ClipsBefore(clips, selected, i) ==> Filed(ls, c, axis, trimIn)
    ensures Shaped(FileFrom(clips, selected, axis, trimIn, i, ls))
    ensures Sound(clips, selected, axis, trimIn, FileFrom(clips, selected, axis, trimIn, i, ls))
    ensures forall c :: c in ClipsBefore(clips, selected, |clips|) ==> Filed(FileFrom(clips, selected, axis, trimIn, i, ls), c, axis, trimIn)
    decreases |clips| - i
  {
    if i < |clips| {
      var before := ClipsBefore(clips, selected, i);
      if Candidate(clips, selected, i) {
        var p := Placed(i, clips[i].value);
        FileAgainstKeeps(clips, selected, axis, trimIn, ls, p, 0, before);
        assert ClipsBefore(clips, selected, i + 1) == before + {p.clip};
      } else {
        assert ClipsBefore(clips, selected, i + 1) == before;
      }
      var next := if Candidate(clips, selected, i) then FileAgainst(ls, Placed(i, clips[i].value), axis, trimIn, 0) else ls;
      FileFromKeeps(clips, selected, axis, trimIn, i + 1, next);
    }
  }

  /** The pre and post lists hold at most one clip per track, each a present
      unselected clip on the named side of some axis point; and for every
      present unselected clip before (at or after) an axis point, the pre
      (post) list holds a clip on its track starting no earlier (no later):
      the nearest clip on each side. */
  lemma RippleListsNearest(clips: Clips, selected: set<int>, axis: seq<Clip>, trimIn: bool)
    ensures Shaped(RippleLists(clips, selected, axis, trimIn))
    ensures Sound(clips, selected, axis, trimIn, RippleLists(clips, selected, axis, trimIn))
    ensures forall i :: 0 <= i < |clips| && Candidate(clips, selected, i) ==>
              Filed(RippleLists(clips, selected, axis, trimIn), clips[i].value, axis, trimIn)
  {
    FileFromKeeps(clips, selected, axis, trimIn, 0, Lists([], []));
    forall i | 0 <= i < |clips| && Candidate(clips, selected, i)
      ensures Filed(RippleLists(clips, selected, axis, trimIn), clips[i].value, axis, trimIn)
    {
      assert clips[i].value in ClipsBefore(clips, selected, |clips|);
    }
  }
}
