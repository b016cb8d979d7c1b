/**
 * What one pass of the update loop does to the list of rockets, on values.
 *
 * The loop draws, moves and tests each rocket in turn and calls
 * `objects.remove(obj)` on the list it is iterating. Python's list iterator
 * walks an index, so after a removal at index i the rocket that slides into
 * slot i is passed over until the next frame. Slot by slot of the list as it
 * was when the frame began, each rocket therefore meets one of three fates.
 */
module Frames {
  import opened Physics
  import opened Staging
  import opened Lists

  /** Passed over (not drawn, moved or tested), moved and kept, or moved and removed. */
  datatype Fate = Skipped | Kept(after: RocketState) | Dropped(after: RocketState)

  /**
   * The renderer calls of one frame, as values: the background, a rocket image
   * centred on a pixel and rotated by some degrees, the guide line.
   */
  datatype Draw = Background | RocketAt(center: Point, rotation: real) | Line(from: Point, to: Point)

  /** Python's int() on a float: truncation toward zero. */
  function Trunc(r: real): (t: int)
    ensures r >= 0.0 ==> t as real <= r < t as real + 1.0
    ensures r < 0.0 ==> t as real - 1.0 < r <= t as real
  {
    if r >= 0.0 then r.Floor else -((-r).Floor)
  }

  /** Rocket.draw: the image turned by 270 - angle degrees, centred on the truncated position. */
  function DrawOf(s: RocketState): Draw
  {
    RocketAt(Point(Trunc(s.x), Trunc(s.y)), 270.0 - s.angle)
  }

  predicate AllCanStep(bs: seq<RocketState>)
  {
    forall j :: 0 <= j < |bs| ==> CanStep(bs[j])
  }

  /**
   * Fates of slots k.. of a list with states `bs`; `skip` says that the
   * rocket in slot k is the one passed over after a removal.
   */
  function FatesFrom(bs: seq<RocketState>, trig: Trig, k: nat, skip: bool): (fs: seq<Fate>)
    requires k <= |bs| && AllCanStep(bs)
    ensures |fs| == |bs| - k
    ensures fs != [] && !skip ==> !fs[0].Skipped?
    decreases |bs| - k
  {
    if k == |bs| then []
    else if skip then [Skipped] + FatesFrom(bs, trig, k + 1, false)
    else
      var after := Step(bs[k], trig);
      if Leaves(after) then [Dropped(after)] + FatesFrom(bs, trig, k + 1, true)
      else [Kept(after)] + FatesFrom(bs, trig, k + 1, false)
  }

  /** The fate of every slot in one frame. */
  function FrameFates(bs: seq<RocketState>, trig: Trig): (fs: seq<Fate>)
    requires AllCanStep(bs)
    ensures |fs| == |bs|
    ensures fs != [] ==> !fs[0].Skipped?
  {
    FatesFrom(bs, trig, 0, false)
  }

  /** The state a rocket is left in by its fate. */
  function Settle(b: RocketState, f: Fate): RocketState
  {
    match f
    case Skipped => b
    case Kept(after) => after
    case Dropped(after) => after
  }

  /** The list after the frame: every slot whose fate is not Dropped, in order. */
  function Surviving<T>(xs: seq<T>, fs: seq<Fate>): (ys: seq<T>)
    requires |xs| == |fs|
    ensures |ys| == |xs| - DroppedCount(fs)
  {
    if xs == [] then []
    else
      var n := |xs| - 1;
      Surviving(xs[..n], fs[..n]) + (if fs[n].Dropped? then [] else [xs[n]])
  }

  function DroppedCount(fs: seq<Fate>): (c: nat)
    ensures c <= |fs|
  {
    if fs == [] then 0
    else DroppedCount(fs[..|fs| - 1]) + (if fs[|fs| - 1].Dropped? then 1 else 0)
  }

  /** The draw calls of the loop: one per rocket not passed over, in its state before the move. */
  function VisitedDraws(bs: seq<RocketState>, fs: seq<Fate>): seq<Draw>
    requires |bs| == |fs|
  {
    if bs == [] then []
    else
      var n := |bs| - 1;
      VisitedDraws(bs[..n], fs[..n]) + (if fs[n].Skipped? then [] else [DrawOf(bs[n])])
  }

  /** The guide line and the preview rocket drawn while an anchor is stored. */
  function Preview(pending: Option<Point>, mouse: Point, trig: Trig): (d: seq<Draw>)
    ensures |d| == if pending.Some? then 2 else 0
  {
    match pending
    case None => []
    case Some(anchor) => [Line(anchor, mouse), DrawOf(Launch(anchor, mouse, trig))]
  }

  /**
   * Slot by slot: a rocket is passed over exactly when the rocket before it was
   * removed; every other rocket is moved once and removed exactly when its
   * moved state is off-screen or inside the planet.
   */
  lemma FateAt(bs: seq<RocketState>, trig: Trig, k: nat)
    requires AllCanStep(bs) && k < |bs|
    ensures var fs := FrameFates(bs, trig);
            && (fs[k].Skipped? <==> k > 0 && fs[k - 1].Dropped?)
            && (!fs[k].Skipped? ==> fs[k].after == Step(bs[k], trig))
            && (fs[k].Dropped? <==> !fs[k].Skipped? && Leaves(fs[k].after))
  {
    FatesFromAt(bs, trig, 0, false, k);
  }

  lemma {:induction false} FatesFromAt(bs: seq<RocketState>, trig: Trig, s: nat, skip: bool, k: nat)
    requires AllCanStep(bs) && s <= k < |bs|
    ensures var fs := FatesFrom(bs, trig, s, skip);
            && (fs[k - s].Skipped? <==> if k == s then skip else fs[k - s - 1].Dropped?)
            && (!fs[k - s].Skipped? ==> fs[k - s].after == Step(bs[k], trig))
            && (fs[k - s].Dropped? <==> !fs[k - s].Skipped? && Leaves(fs[k - s].after))
    decreases k - s
  {
    var fs := FatesFrom(bs, trig, s, skip);
    var next := !skip && Leaves(Step(bs[s], trig));
    assert fs[1..] == FatesFrom(bs, trig, s + 1, next);
    if k > s {
      FatesFromAt(bs, trig, s + 1, next, k);
      if k == s + 1 {
        assert fs[0].Dropped? == next;
      }
    }
  }

  /**
   * Iterating a snapshot (a copy of the list): every rocket is moved and
   * tested once per frame.
   */
  function SnapshotFates(bs: seq<RocketState>, trig: Trig): (fs: seq<Fate>)
    requires AllCanStep(bs)
    ensures |fs| == |bs|
  {
    if bs == [] then []
    else
      var after := Step(bs[0], trig);
      [if Leaves(after) then Dropped(after) else Kept(after)] + SnapshotFates(bs[1..], trig)
  }

  /**
   * The in-place loop treats the list exactly as snapshot iteration would if
   * and only if no rocket other than the last one is removed.
   */
  lemma FrameMatchesSnapshotIff(bs: seq<RocketState>, trig: Trig)
    requires AllCanStep(bs)
    ensures FrameFates(bs, trig) == SnapshotFates(bs, trig) <==>
            forall k :: 0 <= k < |bs| - 1 ==> !Leaves(Step(bs[k], trig))
  {
    SuffixMatchesSnapshotIff(bs, trig, 0);
  }

  lemma {:induction false} SuffixMatchesSnapshotIff(bs: seq<RocketState>, trig: Trig, s: nat)
    requires AllCanStep(bs) && s <= |bs|
    ensures FatesFrom(bs, trig, s, false) == SnapshotFates(bs[s..], trig) <==>
            forall k :: s <= k < |bs| - 1 ==> !Leaves(Step(bs[k], trig))
    decreases |bs| - s
  {
    if s < |bs| {
      SuffixMatchesSnapshotIff(bs, trig, s + 1);
      assert bs[s..][1..] == bs[s + 1..];
      var after := Step(bs[s], trig);
      var frame := FatesFrom(bs, trig, s, false);
      var snap := SnapshotFates(bs[s..], trig);
      if !Leaves(after) {
        assert frame == [Kept(after)] + FatesFrom(bs, trig, s + 1, false);
        assert snap == [Kept(after)] + SnapshotFates(bs[s + 1..], trig);
      } else if s + 1 == |bs| {
        assert frame == [Dropped(after)];
        assert snap == [Dropped(after)];
      } else {
        assert frame == [Dropped(after)] + FatesFrom(bs, trig, s + 1, true);
        assert frame[1] == Skipped;
        assert snap[1..] == SnapshotFates(bs[s + 1..], trig);
        assert snap[1] != Skipped;
        assert frame != snap;
      }
    }
  }

  /** Two rockets at rest side by side left of the window, where the pull is horizontal. */
  function LeftOfWindow(): RocketState
  {
    RocketState(-1000.0, PlanetY as real, 0.0, 0.0, RocketMass as real, 0.0)
  }

  /**
   * Two rockets that both leave the window: the first is removed, the second is
   * passed over and stays in the list, unmoved, for another frame.
   */
  lemma SecondOfTwoLeaversSkipped(trig: Trig)
    requires IsUnitToward(trig.toward(PlanetX as real + 1000.0, 0.0), PlanetX as real + 1000.0, 0.0)
    ensures var bs := [LeftOfWindow(), LeftOfWindow()];
            && AllCanStep(bs)
            && FrameFates(bs, trig) == [Dropped(Step(LeftOfWindow(), trig)), Skipped]
            && Surviving(["first", "second"], FrameFates(bs, trig)) == ["second"]
  {
    var b := LeftOfWindow();
    LeftOfWindowLeaves(trig);
    var bs := [b, b];
    var tail := FatesFrom(bs, trig, 1, true);
    assert tail == [Skipped];
    assert FrameFates(bs, trig) == [Dropped(Step(b, trig))] + tail;
  }

  /** Far left of the window, one step of pull cannot bring a resting rocket back on screen. */
  lemma LeftOfWindowLeaves(trig: Trig)
    requires IsUnitToward(trig.toward(PlanetX as real + 1000.0, 0.0), PlanetX as real + 1000.0, 0.0)
    ensures CanStep(LeftOfWindow())
    ensures Step(LeftOfWindow(), trig).x < 0.0
    ensures Leaves(Step(LeftOfWindow(), trig))
  {
    var b := LeftOfWindow();
    var dx := PlanetX as real + 1000.0;
    var u := trig.toward(dx, 0.0);
    UnitAlongX(u, dx);
    assert Square(b.x - PlanetX as real) == Square(-1360.0) == 1849600.0;
    assert Dist2(b.x, b.y) == 1849600.0;
    var a := Acceleration(b.mass, b.x, b.y);
    assert a < 1.0;
    assert a * u.x <= a;
    assert Step(b, trig).x == -1000.0 + a * u.x;
  }

  /** The unit vector along a positive x offset is (c, 0) with 0 < c <= 1. */
  lemma UnitAlongX(u: Vec, dx: real)
    requires dx > 0.0 && IsUnitToward(u, dx, 0.0)
    ensures u.y == 0.0 && 0.0 < u.x <= 1.0
  {
    assert u.y * dx == 0.0;
    if u.y > 0.0 {
      MulPositive(u.y, dx);
    } else if u.y < 0.0 {
      MulPositive(-u.y, dx);
    }
    assert Square(u.y) == 0.0;
  }

  /** Surviving and VisitedDraws over one more slot of the frame. */
  lemma SurvivingStep<T>(xs: seq<T>, fs: seq<Fate>, k: nat)
    requires |xs| == |fs| && k < |xs|
    ensures Surviving(xs[..k + 1], fs[..k + 1]) ==
            Surviving(xs[..k], fs[..k]) + (if fs[k].Dropped? then [] else [xs[k]])
  {
    assert xs[..k + 1][..k] == xs[..k];
    assert fs[..k + 1][..k] == fs[..k];
  }

  lemma VisitedDrawsStep(bs: seq<RocketState>, fs: seq<Fate>, k: nat)
    requires |bs| == |fs| && k < |bs|
    ensures VisitedDraws(bs[..k + 1], fs[..k + 1]) ==
            VisitedDraws(bs[..k], fs[..k]) + (if fs[k].Skipped? then [] else [DrawOf(bs[k])])
  {
    assert bs[..k + 1][..k] == bs[..k];
    assert fs[..k + 1][..k] == fs[..k];
  }

  /** Every element of the surviving list was in the list before: no rocket is added. */
  lemma {:induction false} SurvivingIsSubsequence<T>(xs: seq<T>, fs: seq<Fate>)
    requires |xs| == |fs|
    ensures IsSubsequence(Surviving(xs, fs), xs)
  {
    if xs != [] {
      var n := |xs| - 1;
      SurvivingIsSubsequence(xs[..n], fs[..n]);
      var ys := Surviving(xs, fs);
      assert xs[..|xs| - 1] == xs[..n];
      if !fs[n].Dropped? {
        assert ys[..|ys| - 1] == Surviving(xs[..n], fs[..n]);
      } else {
        assert ys == Surviving(xs[..n], fs[..n]);
        SubsequenceOfPrefix(ys, xs);
      }
    }
  }

  /**
   * `ys` is `xs` with some elements deleted, order kept: the last element of
   * ys is matched with the last of xs, or the last of xs is deleted.
   */
  ghost predicate IsSubsequence<T>(ys: seq<T>, xs: seq<T>)
    decreases |xs|
  {
    if ys == [] then true
    else if xs == [] then false
    else
      (ys[|ys| - 1] == xs[|xs| - 1] && IsSubsequence(ys[..|ys| - 1], xs[..|xs| - 1]))
      || IsSubsequence(ys, xs[..|xs| - 1])
  }

  lemma SubsequenceOfPrefix<T>(ys: seq<T>, xs: seq<T>)
    requires xs != [] && IsSubsequence(ys, xs[..|xs| - 1])
    ensures IsSubsequence(ys, xs)
  {
  }

  /** Elements of a subsequence come from the sequence. */
  lemma {:induction false} SubsequenceMembers<T>(ys: seq<T>, xs: seq<T>)
    requires IsSubsequence(ys, xs)
    ensures forall y :: y in ys ==> y in xs
    decreases |xs|
  {
    if ys != [] && xs != [] {
      var xs' := xs[..|xs| - 1];
      assert forall x :: x in xs' ==> x in xs;
      if ys[|ys| - 1] == xs[|xs| - 1] && IsSubsequence(ys[..|ys| - 1], xs') {
        SubsequenceMembers(ys[..|ys| - 1], xs');
        assert ys == ys[..|ys| - 1] + [ys[|ys| - 1]];
      } else {
        SubsequenceMembers(ys, xs');
      }
    }
  }

  /** Of rockets that are all different objects, one is still in the list exactly when it was not removed. */
  lemma {:induction false} SurvivingMembership<T>(xs: seq<T>, fs: seq<Fate>, k: nat)
    requires |xs| == |fs| && Distinct(xs) && k < |xs|
    ensures xs[k] in Surviving(xs, fs) <==> !fs[k].Dropped?
  {
    var n := |xs| - 1;
    var init := Surviving(xs[..n], fs[..n]);
    DistinctPrefix(xs, n);
    if k == n {
      SurvivingIsSubsequence(xs[..n], fs[..n]);
      SubsequenceMembers(init, xs[..n]);
    } else {
      SurvivingMembership(xs[..n], fs[..n], k);
      assert xs[..n][k] == xs[k];
      DistinctPairs(xs);
    }
  }

  /**
   * One pass of the loop body over slot k: a rocket that stays adds itself to
   * the kept prefix and one draw call.
   */
  lemma AdvanceKept<T>(o: seq<T>, bs: seq<RocketState>, trig: Trig, k: nat)
    requires AllCanStep(bs) && |o| == |bs| && k < |o|
    requires var fs := FrameFates(bs, trig); !fs[k].Skipped? && !Leaves(Step(bs[k], trig))
    ensures var fs := FrameFates(bs, trig);
            && fs[k] == Kept(Step(bs[k], trig))
            && Surviving(o[..k + 1], fs[..k + 1]) == Surviving(o[..k], fs[..k]) + [o[k]]
            && Surviving(o[..k + 1], fs[..k + 1]) + o[k + 1..] == Surviving(o[..k], fs[..k]) + o[k..]
            && VisitedDraws(bs[..k + 1], fs[..k + 1]) == VisitedDraws(bs[..k], fs[..k]) + [DrawOf(bs[k])]
            && (k + 1 < |o| ==> !fs[k + 1].Skipped?)
            && SettleAll(bs[..k + 1], fs[..k + 1]) + bs[k + 1..] ==
               (SettleAll(bs[..k], fs[..k]) + bs[k..])[k := Step(bs[k], trig)]
  {
    var fs := FrameFates(bs, trig);
    FateAt(bs, trig, k);
    SurvivingStep(o, fs, k);
    VisitedDrawsStep(bs, fs, k);
    SettleStep(bs, fs, k);
    assert o[k..] == [o[k]] + o[k + 1..];
    if k + 1 < |o| {
      FateAt(bs, trig, k + 1);
    }
  }

  /**
   * One pass of the loop body over slot k when the rocket is removed: the
   * next slot, if any, is passed over, and the loop resumes at slot `next`.
   */
  lemma AdvanceDropped<T>(o: seq<T>, bs: seq<RocketState>, trig: Trig, k: nat) returns (next: nat)
    requires AllCanStep(bs) && |o| == |bs| && k < |o|
    requires var fs := FrameFates(bs, trig); !fs[k].Skipped? && Leaves(Step(bs[k], trig))
    ensures next == if k + 1 < |o| then k + 2 else k + 1
    ensures var fs := FrameFates(bs, trig);
            && fs[k] == Dropped(Step(bs[k], trig))
            && (k + 1 < |o| ==> fs[k + 1] == Skipped)
            && Surviving(o[..next], fs[..next]) == Surviving(o[..k], fs[..k]) + o[k + 1..next]
            && Surviving(o[..next], fs[..next]) + o[next..] == Surviving(o[..k], fs[..k]) + o[k + 1..]
            && VisitedDraws(bs[..next], fs[..next]) == VisitedDraws(bs[..k], fs[..k]) + [DrawOf(bs[k])]
            && (next < |o| ==> !fs[next].Skipped?)
            && SettleAll(bs[..next], fs[..next]) + bs[next..] ==
               (SettleAll(bs[..k], fs[..k]) + bs[k..])[k := Step(bs[k], trig)]
  {
    var fs := FrameFates(bs, trig);
    FateAt(bs, trig, k);
    VisitedDrawsStep(bs, fs, k);
    SettleStep(bs, fs, k);
    if k + 1 < |o| {
      FateAt(bs, trig, k + 1);
      VisitedDrawsStep(bs, fs, k + 1);
      SettleStep(bs, fs, k + 1);
      var s1 := SettleAll(bs[..k + 1], fs[..k + 1]) + bs[k + 1..];
      assert s1[k + 1] == bs[k + 1];
      assert s1[k + 1 := bs[k + 1]] == s1;
      if k + 2 < |o| {
        FateAt(bs, trig, k + 2);
      }
      next := k + 2;
    } else {
      next := k + 1;
    }
    DropSkip(o, fs, k, next);
  }

  /** The list after removing slot k and passing over slot k + 1, if there is one. */
  lemma DropSkip<T>(o: seq<T>, fs: seq<Fate>, k: nat, next: nat)
    requires |o| == |fs| && k < |o| && fs[k].Dropped?
    requires next == if k + 1 < |o| then k + 2 else k + 1
    requires k + 1 < |o| ==> fs[k + 1] == Skipped
    ensures Surviving(o[..next], fs[..next]) == Surviving(o[..k], fs[..k]) + o[k + 1..next]
    ensures Surviving(o[..next], fs[..next]) + o[next..] == Surviving(o[..k], fs[..k]) + o[k + 1..]
  {
    SurvivingStep(o, fs, k);
    var kept := Surviving(o[..k], fs[..k]);
    assert kept + [] == kept;
    if k + 1 < |o| {
      SurvivingStep(o, fs, k + 1);
      assert o[k + 1..next] == [o[k + 1]];
      assert o[k + 1..] == o[k + 1..next] + o[next..];
      assert (kept + o[k + 1..next]) + o[next..] == kept + (o[k + 1..next] + o[next..]);
    } else {
      assert o[k + 1..next] == [] && o[next..] == [];
    }
  }

  /**
   * Where the loop of main.py:135-144 stands before visiting slot k of the
   * list `o` it started from: the list holds the kept rockets of the slots
   * before k followed by the rest, the list index i points at slot k, the
   * slots before k have their state after the frame and the later ones
   * their state before it, and the draw calls so far are those of the
   * visited slots.
   */
  ghost predicate Reached<T>(o: seq<T>, bs: seq<RocketState>, trig: Trig, k: nat,
                             list: seq<T>, i: nat, states: seq<RocketState>, trace: seq<Draw>)
  {
    && AllCanStep(bs) && |o| == |bs| && k <= |o|
    && var fs := FrameFates(bs, trig);
       && list == Surviving(o[..k], fs[..k]) + o[k..]
       && (k < |o| ==> i == |Surviving(o[..k], fs[..k])| && !fs[k].Skipped?)
       && (k == |o| ==> i >= |list|)
       && states == SettleAll(bs[..k], fs[..k]) + bs[k..]
       && trace == [Background] + VisitedDraws(bs[..k], fs[..k])
  }

  /** Before the loop: nothing visited. */
  lemma ReachedStart<T>(o: seq<T>, bs: seq<RocketState>, trig: Trig)
    requires AllCanStep(bs) && |o| == |bs|
    ensures Reached(o, bs, trig, 0, o, 0, bs, [Background])
  {
    assert o[..0] == [] && o[0..] == o && bs[0..] == bs;
    if o != [] {
      FateAt(bs, trig, 0);
    }
  }

  /** While the index is inside the list, it holds the rocket of slot k, still in its old state. */
  lemma ReachedNext<T>(o: seq<T>, bs: seq<RocketState>, trig: Trig, k: nat,
                       list: seq<T>, i: nat, states: seq<RocketState>, trace: seq<Draw>)
    requires Reached(o, bs, trig, k, list, i, states, trace) && i < |list|
    ensures k < |o| && list[i] == o[k] && states[k] == bs[k]
  {
  }

  /** A visit that keeps the rocket moves on to the next slot. */
  lemma ReachedKept<T>(o: seq<T>, bs: seq<RocketState>, trig: Trig, k: nat,
                       list: seq<T>, i: nat, states: seq<RocketState>, trace: seq<Draw>)
    requires Reached(o, bs, trig, k, list, i, states, trace) && k < |o|
    requires !Leaves(Step(bs[k], trig))
    ensures Reached(o, bs, trig, k + 1, list, i + 1, states[k := Step(bs[k], trig)], trace + [DrawOf(bs[k])])
  {
    AdvanceKept(o, bs, trig, k);
  }

  /** A visit that removes the rocket moves on past the slot after it. */
  lemma ReachedDropped<T>(o: seq<T>, bs: seq<RocketState>, trig: Trig, k: nat,
                          list: seq<T>, i: nat, states: seq<RocketState>, trace: seq<Draw>) returns (next: nat)
    requires Reached(o, bs, trig, k, list, i, states, trace) && k < |o| && Distinct(o)
    requires Leaves(Step(bs[k], trig))
    ensures k < next <= |o|
    ensures Reached(o, bs, trig, next, RemoveFirst(list, o[k]), i + 1, states[k := Step(bs[k], trig)], trace + [DrawOf(bs[k])])
  {
    next := AdvanceDropped(o, bs, trig, k);
    RemoveAtSlot(o, FrameFates(bs, trig), k);
  }

  /** When the index runs off the list, every slot has been settled. */
  lemma ReachedEnd<T>(o: seq<T>, bs: seq<RocketState>, trig: Trig, k: nat,
                      list: seq<T>, i: nat, states: seq<RocketState>, trace: seq<Draw>)
    requires Reached(o, bs, trig, k, list, i, states, trace) && i >= |list|
    ensures var fs := FrameFates(bs, trig);
            && list == Surviving(o, fs)
            && states == SettleAll(bs, fs)
            && trace == [Background] + VisitedDraws(bs, fs)
  {
    assert k == |o|;
    assert o[..k] == o && bs[..k] == bs && bs[k..] == [];
    assert FrameFates(bs, trig)[..k] == FrameFates(bs, trig);
  }

  /** The state of every slot after the frame, removed or not. */
  function SettleAll(bs: seq<RocketState>, fs: seq<Fate>): (ss: seq<RocketState>)
    requires |bs| == |fs|
    ensures |ss| == |bs|
  {
    if bs == [] then []
    else
      var n := |bs| - 1;
      SettleAll(bs[..n], fs[..n]) + [Settle(bs[n], fs[n])]
  }

  /** Slot j of SettleAll is slot j settled by its fate. */
  lemma {:induction false} SettleAllAt(bs: seq<RocketState>, fs: seq<Fate>, j: nat)
    requires |bs| == |fs| && j < |bs|
    ensures SettleAll(bs, fs)[j] == Settle(bs[j], fs[j])
  {
    var n := |bs| - 1;
    if j < n {
      SettleAllAt(bs[..n], fs[..n], j);
    }
  }

  /** Whatever holds of every slot that is not removed holds of every element of the list after the frame. */
  lemma {:induction false} SurvivingAll<T>(xs: seq<T>, fs: seq<Fate>, p: T -> bool)
    requires |xs| == |fs|
    requires forall j :: 0 <= j < |xs| && !fs[j].Dropped? ==> p(xs[j])
    ensures forall m :: 0 <= m < |Surviving(xs, fs)| ==> p(Surviving(xs, fs)[m])
  {
    if xs != [] {
      var n := |xs| - 1;
      SurvivingAll(xs[..n], fs[..n], p);
    }
  }

  /** Removing slots keeps the elements different from one another. */
  lemma {:induction false} SurvivingDistinct<T>(xs: seq<T>, fs: seq<Fate>)
    requires |xs| == |fs| && Distinct(xs)
    ensures Distinct(Surviving(xs, fs))
  {
    if xs != [] {
      var n := |xs| - 1;
      var init := Surviving(xs[..n], fs[..n]);
      DistinctPrefix(xs, n);
      SurvivingDistinct(xs[..n], fs[..n]);
      if fs[n].Dropped? {
        assert Surviving(xs, fs) == init + [];
        assert init + [] == init;
      } else {
        SurvivingIsSubsequence(xs[..n], fs[..n]);
        SubsequenceMembers(init, xs[..n]);
        DistinctSnoc(init, xs[n]);
        assert Surviving(xs, fs) == init + [xs[n]];
      }
    }
  }

  /**
   * Mid-frame, the list holds the kept rockets of the slots before k and then
   * the slots from k on; removing the rocket of slot k deletes just that slot.
   */
  lemma RemoveAtSlot<T>(xs: seq<T>, fs: seq<Fate>, k: nat)
    requires |xs| == |fs| && Distinct(xs) && k < |xs|
    ensures var kept := Surviving(xs[..k], fs[..k]);
            RemoveFirst(kept + xs[k..], xs[k]) == kept + xs[k + 1..]
  {
    var kept := Surviving(xs[..k], fs[..k]);
    var s := kept + xs[k..];
    var i := |kept|;
    assert xs[k] !in kept by {
      SurvivingIsSubsequence(xs[..k], fs[..k]);
      SubsequenceMembers(kept, xs[..k]);
      DistinctPrefix(xs, k);
    }
    assert s[..i] == kept && s[i..] == xs[k..];
    assert s[i + 1..] == s[i..][1..];
    assert xs[k..][1..] == xs[k + 1..];
    RemoveFirstAt(s, i);
  }

  /**
   * After a frame every rocket left in the list can move again (it has its
   * mass and is not at the planet centre), and every rocket keeps its mass.
   */
  lemma FrameKeepsCanStep(bs: seq<RocketState>, trig: Trig, mass: real)
    requires AllCanStep(bs)
    requires forall j :: 0 <= j < |bs| ==> bs[j].mass == mass
    ensures var fs := FrameFates(bs, trig);
            var left := Surviving(SettleAll(bs, fs), fs);
            && AllCanStep(left)
            && forall m :: 0 <= m < |left| ==> left[m].mass == mass
  {
    var fs := FrameFates(bs, trig);
    var ss := SettleAll(bs, fs);
    forall j | 0 <= j < |bs| && !fs[j].Dropped?
      ensures CanStep(ss[j]) && ss[j].mass == mass
    {
      SettleAllAt(bs, fs, j);
      FateAt(bs, trig, j);
      if fs[j].Kept? {
        KeptCanStep(ss[j]);
      }
    }
    SurvivingAll(ss, fs, (b: RocketState) => CanStep(b) && b.mass == mass);
  }

  lemma SettleStep(bs: seq<RocketState>, fs: seq<Fate>, k: nat)
    requires |bs| == |fs| && k < |bs|
    ensures (SettleAll(bs[..k], fs[..k]) + bs[k..])[k := Settle(bs[k], fs[k])] ==
            SettleAll(bs[..k + 1], fs[..k + 1]) + bs[k + 1..]
  {
    assert bs[..k + 1][..k] == bs[..k];
    assert fs[..k + 1][..k] == fs[..k];
  }
}
