/** One-sided clamps on a frame difference. Every check the ghost validator
    performs has the shape "if the proposed difference violates this bound,
    move it onto the bound", and the validator runs them one after another
    over all ghosts. This module states what such a chain guarantees. */
module Clamps {

  datatype Bound = AtMost(hi: int) | AtLeast(lo: int)

  predicate Meets(d: int, b: Bound) {
    match b
    case AtMost(hi) => d <= hi
    case AtLeast(lo) => lo <= d
  }

  /** Moves `d` onto the bound when it violates it, and only then. */
  function Clamp(d: int, b: Bound): (r: int)
    ensures Meets(r, b)
    ensures Meets(d, b) <==> r == d
    ensures b.AtMost? ==> r <= d
    ensures b.AtLeast? ==> r >= d
  {
    match b
    case AtMost(hi) => if d > hi then hi else d
    case AtLeast(lo) => if d < lo then lo else d
  }

  /** The bounds applied in order, first to last. */
  function ClampAll(d: int, bs: seq<Bound>): int
    decreases |bs|
  {
    if bs == [] then d else ClampAll(Clamp(d, bs[0]), bs[1..])
  }

  predicate MeetsAll(d: int, bs: seq<Bound>) {
    forall i :: 0 <= i < |bs| ==> Meets(d, bs[i])
  }

  /** No lower bound of the pair exceeds its upper bound. */
  predicate Compatible(a: Bound, b: Bound) {
    && !(a.AtLeast? && b.AtMost? && a.lo > b.hi)
    && !(a.AtMost? && b.AtLeast? && b.lo > a.hi)
  }

  /** Pairwise compatibility: every lower bound is at most every upper bound. */
  predicate Consistent(bs: seq<Bound>) {
    forall i, j :: 0 <= i < |bs| && 0 <= j < |bs| ==> Compatible(bs[i], bs[j])
  }

  /** Applying `bs` after `done` keeps what `done` already established. */
  lemma {:induction false} ClampAllKeepsEarlier(d: int, done: seq<Bound>, rest: seq<Bound>)
    requires Consistent(done + rest)
    requires MeetsAll(d, done)
    ensures MeetsAll(ClampAll(d, rest), done + rest)
    decreases |rest|
  {
    if rest == [] {
      assert done + rest == done;
    } else {
      var b := rest[0];
      var d' := Clamp(d, b);
      var done' := done + [b];
      forall i | 0 <= i < |done'|
        ensures Meets(d', done'[i])
      {
        if i < |done| {
          assert Compatible(done[i], b) by {
            assert done[i] == (done + rest)[i];
            assert b == (done + rest)[|done|];
          }
        }
      }
      assert done' + rest[1..] == done + rest;
      ClampAllKeepsEarlier(d', done', rest[1..]);
    }
  }

  /** When the bounds are jointly satisfiable, the chain of one-sided clamps
      ends inside all of them, whatever the starting difference. */
  lemma ClampAllMeets(d: int, bs: seq<Bound>)
    requires Consistent(bs)
    ensures MeetsAll(ClampAll(d, bs), bs)
  {
    assert [] + bs == bs;
    ClampAllKeepsEarlier(d, [], bs);
  }

  /** A difference already inside every bound comes back unchanged. */
  lemma {:induction false} ClampAllKeeps(d: int, bs: seq<Bound>)
    requires MeetsAll(d, bs)
    ensures ClampAll(d, bs) == d
    decreases |bs|
  {
    if bs != [] {
      assert Meets(d, bs[0]);
      assert MeetsAll(d, bs[1..]) by {
        forall i | 0 <= i < |bs[1..]| ensures Meets(d, bs[1..][i]) {
          assert bs[1..][i] == bs[i + 1];
        }
      }
      ClampAllKeeps(d, bs[1..]);
    }
  }

  /** Clamping by a concatenation is clamping by each part in turn. */
  lemma {:induction false} ClampAllAppend(d: int, a: seq<Bound>, b: seq<Bound>)
    ensures ClampAll(d, a + b) == ClampAll(ClampAll(d, a), b)
    decreases |a|
  {
    if a != [] {
      assert (a + b)[0] == a[0];
      assert (a + b)[1..] == a[1..] + b;
      ClampAllAppend(Clamp(d, a[0]), a[1..], b);
    } else {
      assert a + b == b;
    }
  }

  /** Pairwise compatibility is exactly joint satisfiability. */
  lemma ConsistentIffSatisfiable(bs: seq<Bound>)
    ensures Consistent(bs) <==> exists d :: MeetsAll(d, bs)
  {
    if Consistent(bs) {
      ClampAllMeets(0, bs);
    }
    if d :| MeetsAll(d, bs) {
      forall i, j | 0 <= i < |bs| && 0 <= j < |bs|
        ensures Compatible(bs[i], bs[j])
      {
        assert Meets(d, bs[i]) && Meets(d, bs[j]);
      }
    }
  }

  /** Meeting a concatenation is meeting both parts. */
  lemma MeetsAllConcat(d: int, a: seq<Bound>, b: seq<Bound>)
    ensures MeetsAll(d, a + b) <==> MeetsAll(d, a) && MeetsAll(d, b)
  {
    if MeetsAll(d, a) && MeetsAll(d, b) {
      forall i | 0 <= i < |a + b| ensures Meets(d, (a + b)[i]) {
        if i >= |a| { assert (a + b)[i] == b[i - |a|]; }
      }
    }
    if MeetsAll(d, a + b) {
      forall i | 0 <= i < |b| ensures Meets(d, b[i]) {
        assert (a + b)[|a| + i] == b[i];
      }
      forall i | 0 <= i < |a| ensures Meets(d, a[i]) {
        assert (a + b)[i] == a[i];
      }
    }
  }

  lemma ClampAllTwo(d: int, a: Bound, b: Bound)
    ensures ClampAll(d, [a, b]) == Clamp(Clamp(d, a), b)
  {
    assert [a, b][1..] == [b];
    assert ClampAll(d, [a, b]) == ClampAll(Clamp(d, a), [b]);
    assert [b][1..] == [];
    assert ClampAll(Clamp(d, a), [b]) == ClampAll(Clamp(Clamp(d, a), b), []);
  }

  lemma ClampAllThree(d: int, a: Bound, b: Bound, c: Bound)
    ensures ClampAll(d, [a, b, c]) == Clamp(Clamp(Clamp(d, a), b), c)
  {
    assert [a, b, c][1..] == [b, c];
    assert ClampAll(d, [a, b, c]) == ClampAll(Clamp(d, a), [b, c]);
    ClampAllTwo(Clamp(d, a), b, c);
  }
}
