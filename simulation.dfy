/**
 * The state of main() between frames: the list of live rockets, which the
 * frame loop edits in place, and the stored launch anchor. The methods are
 * the two halves of one pass of the main loop: handling the frame's events,
 * then drawing, moving and removing rockets.
 */
module Simulation {
  import opened Physics
  import opened Lists
  import opened Staging
  import opened Rockets
  import opened Frames

  /** The event kinds the loop tells apart. */
  datatype Event = MouseButtonDown | QuitEvent | OtherEvent

  /** The click positions of a frame's events: every click is at the one pointer position read for the frame. */
  function ClickPoints(events: seq<Event>, mouse: Point): (ps: seq<Point>)
    ensures |ps| <= |events|
  {
    if events == [] then []
    else
      var n := |events| - 1;
      ClickPoints(events[..n], mouse) + (if events[n] == MouseButtonDown then [mouse] else [])
  }

  /** The states create_rocket gives the rockets of some shots. */
  function Launches(shots: seq<Shot>, trig: Trig): (bs: seq<RocketState>)
    ensures |bs| == |shots|
  {
    if shots == [] then []
    else
      var n := |shots| - 1;
      Launches(shots[..n], trig) + [Launch(shots[n].anchor, shots[n].target, trig)]
  }

  /** There is one click per MOUSEBUTTONDOWN event of the frame. */
  lemma {:induction false} ClickPointsCount(events: seq<Event>, mouse: Point)
    ensures |ClickPoints(events, mouse)| == multiset(events)[MouseButtonDown]
  {
    if events != [] {
      var n := |events| - 1;
      ClickPointsCount(events[..n], mouse);
      assert events == events[..n] + [events[n]];
      assert multiset(events) == multiset(events[..n]) + multiset{events[n]};
    }
  }

  /**
   * Every click of a frame is at the frame's pointer position, and there is
   * one click per MOUSEBUTTONDOWN event.
   */
  lemma {:induction false} ClickPointsAtMouse(events: seq<Event>, mouse: Point)
    ensures var ps := ClickPoints(events, mouse);
            && (forall j :: 0 <= j < |ps| ==> ps[j] == mouse)
            && |ps| == multiset(events)[MouseButtonDown]
            && (MouseButtonDown in events <==> ps != [])
  {
    ClickPointsCount(events, mouse);
    assert MouseButtonDown in events <==> multiset(events)[MouseButtonDown] > 0;
    if events != [] {
      var n := |events| - 1;
      ClickPointsAtMouse(events[..n], mouse);
    }
  }

  /** Rocket j of a run of shots is the one create_rocket makes for shot j. */
  lemma {:induction false} LaunchesAt(shots: seq<Shot>, trig: Trig, j: nat)
    requires j < |shots|
    ensures Launches(shots, trig)[j] == Launch(shots[j].anchor, shots[j].target, trig)
  {
    var n := |shots| - 1;
    if j < n {
      LaunchesAt(shots[..n], trig, j);
    }
  }

  /** What one event does to the stored anchor: a click goes through Click, any other event leaves it. */
  function OnEvent(pending: Option<Point>, event: Event, mouse: Point): Staged
  {
    if event == MouseButtonDown then Click(pending, mouse) else Staged(pending, [])
  }

  /** One event is a run of Clicks over its click positions. */
  lemma OnEventIsClicks(pending: Option<Point>, event: Event, mouse: Point)
    ensures OnEvent(pending, event, mouse) == Clicks(pending, ClickPoints([event], mouse))
  {
    var ps := ClickPoints([event], mouse);
    assert [event][..0] == [];
    assert ps == ClickPoints([], mouse) + (if event == MouseButtonDown then [mouse] else []);
    if event == MouseButtonDown {
      assert ps == [] + [mouse];
      ClicksSnoc(pending, [], mouse);
      var c := Click(pending, mouse);
      assert [] + c.shots == c.shots;
    } else {
      assert ps == [];
    }
  }

  /** The stored anchor and the shots after a run of events, taken one event at a time. */
  function AfterEvents(pending: Option<Point>, events: seq<Event>, mouse: Point): Staged
  {
    if events == [] then Staged(pending, [])
    else
      var prev := AfterEvents(pending, events[..|events| - 1], mouse);
      var last := OnEvent(prev.pending, events[|events| - 1], mouse);
      Staged(last.pending, prev.shots + last.shots)
  }

  /** Whether the events hold a QUIT event, taken one event at a time. */
  function AnyQuit(events: seq<Event>): bool
  {
    events != [] && (AnyQuit(events[..|events| - 1]) || events[|events| - 1] == QuitEvent)
  }

  lemma {:induction false} AnyQuitIff(events: seq<Event>)
    ensures AnyQuit(events) <==> QuitEvent in events
  {
    if events != [] {
      var n := |events| - 1;
      AnyQuitIff(events[..n]);
      assert events == events[..n] + [events[n]];
    }
  }

  /** One more event extends the run of events by what OnEvent does from the anchor the run leaves. */
  lemma AfterEventsSnoc(p0: Option<Point>, events: seq<Event>, n: nat, mouse: Point)
    requires n < |events|
    ensures var prev := AfterEvents(p0, events[..n], mouse);
            var st := OnEvent(prev.pending, events[n], mouse);
            AfterEvents(p0, events[..n + 1], mouse) == Staged(st.pending, prev.shots + st.shots)
  {
    assert events[..n + 1][..n] == events[..n];
  }

  /** One more event is a QUIT event or leaves the QUIT test as it was. */
  lemma AnyQuitSnoc(events: seq<Event>, n: nat)
    requires n < |events|
    ensures AnyQuit(events[..n + 1]) == (AnyQuit(events[..n]) || events[n] == QuitEvent)
  {
    assert events[..n + 1][..n] == events[..n];
  }

  /** Launch states appended in two goes are the launch states of both runs of shots. */
  lemma LaunchesSnoc(s0: seq<RocketState>, shots: seq<Shot>, more: seq<Shot>, trig: Trig)
    ensures (s0 + Launches(shots, trig)) + Launches(more, trig) == s0 + Launches(shots + more, trig)
  {
    LaunchesAppend(shots, more, trig);
    assert (s0 + Launches(shots, trig)) + Launches(more, trig) == s0 + (Launches(shots, trig) + Launches(more, trig));
  }

  /** Taking the events one at a time is the same as running Clicks over the frame's click positions. */
  lemma {:induction false} AfterEventsIsClicks(pending: Option<Point>, events: seq<Event>, mouse: Point)
    ensures AfterEvents(pending, events, mouse) == Clicks(pending, ClickPoints(events, mouse))
  {
    if events != [] {
      var n := |events| - 1;
      assert events == events[..n] + [events[n]];
      AfterEventsIsClicks(pending, events[..n], mouse);
      OnEventIsClicks(AfterEvents(pending, events[..n], mouse).pending, events[n], mouse);
      ClickPointsAppend(events[..n], [events[n]], mouse);
      ClicksAppend(pending, ClickPoints(events[..n], mouse), ClickPoints([events[n]], mouse));
    }
  }

  class Simulation {
    /** `objects` in main(): the rockets in flight, in launch order. */
    var objects: seq<Rocket>
    /** `temp_obj_pos` in main(): the anchor of a launch in progress. */
    var tempObjPos: Option<Point>

    /** The list never holds the same rocket twice, and every rocket has the launch mass. */
    ghost predicate Valid()
      reads this, objects
    {
      && Distinct(objects)
      && forall j :: 0 <= j < |objects| ==> objects[j].mass == RocketMass as real
    }

    /** The start of main(): no rockets and no anchor. */
    constructor ()
      ensures Valid()
      ensures objects == [] && tempObjPos == None
    {
      objects := [];
      tempObjPos := None;
    }

    /**
     * A MOUSEBUTTONDOWN event: with an anchor stored, launch a rocket from it
     * toward the pointer and clear it; otherwise store the pointer.
     */
    method OnMouseDown(mouse: Point, trig: Trig)
      requires Valid()
      modifies this
      ensures Valid()
      ensures var st := Staging.Click(old(tempObjPos), mouse);
              && tempObjPos == st.pending
              && |old(objects)| <= |objects| && objects[..|old(objects)|] == old(objects)
              && States(objects) == old(States(objects)) + Launches(st.shots, trig)
      ensures forall j :: |old(objects)| <= j < |objects| ==> fresh(objects[j])
    {
      if tempObjPos.Some? {
        var obj := CreateRocket(tempObjPos.value, mouse, trig);
        StatesAppend(objects, [obj]);
        DistinctSnoc(objects, obj);
        objects := objects + [obj];
        tempObjPos := None;
      } else {
        tempObjPos := Some(mouse);
      }
    }

    /** One event of the frame's event loop (main.py:121-131). */
    method HandleEvent(mouse: Point, event: Event, trig: Trig) returns (quit: bool)
      requires Valid()
      modifies this
      ensures Valid()
      ensures quit <==> event == QuitEvent
      ensures var st := OnEvent(old(tempObjPos), event, mouse);
              && tempObjPos == st.pending
              && |old(objects)| <= |objects| && objects[..|old(objects)|] == old(objects)
              && States(objects) == old(States(objects)) + Launches(st.shots, trig)
      ensures forall j :: |old(objects)| <= j < |objects| ==> fresh(objects[j])
    {
      quit := false;
      if event == QuitEvent {
        quit := true;
      }
      if event == MouseButtonDown {
        OnMouseDown(mouse, trig);
      }
    }

    /**
     * The event loop of one frame: every click is handled at the frame's
     * pointer position, in order, and a QUIT event asks the main loop to stop.
     */
    method ProcessEvents(mouse: Point, events: seq<Event>, trig: Trig) returns (quit: bool)
      requires Valid()
      modifies this
      ensures Valid()
      ensures quit <==> QuitEvent in events
      ensures var st := Clicks(old(tempObjPos), ClickPoints(events, mouse));
              && tempObjPos == st.pending
              && |old(objects)| <= |objects| && objects[..|old(objects)|] == old(objects)
              && States(objects) == old(States(objects)) + Launches(st.shots, trig)
      ensures forall j :: |old(objects)| <= j < |objects| ==> fresh(objects[j])
    {
      quit := false;
      var n := 0;
      ghost var shots: seq<Shot> := [];
      while n < |events|
        invariant 0 <= n <= |events|
        invariant Valid()
        invariant quit == AnyQuit(events[..n])
        invariant AfterEvents(old(tempObjPos), events[..n], mouse) == Staged(tempObjPos, shots)
        invariant |old(objects)| <= |objects| && objects[..|old(objects)|] == old(objects)
        invariant States(objects) == old(States(objects)) + Launches(shots, trig)
        invariant forall j :: |old(objects)| <= j < |objects| ==> fresh(objects[j])
      {
        var event := events[n];
        ghost var pending := tempObjPos;
        ghost var mid := objects;
        var isQuit := HandleEvent(mouse, event, trig);
        ghost var st := OnEvent(pending, event, mouse);
        AfterEventsSnoc(old(tempObjPos), events, n, mouse);
        AnyQuitSnoc(events, n);
        LaunchesSnoc(old(States(objects)), shots, st.shots, trig);
        PrefixOfPrefix(old(objects), mid, objects);
        forall j | |old(objects)| <= j < |objects|
          ensures fresh(objects[j])
        {
          if j < |mid| {
            assert objects[j] == objects[..|mid|][j];
          }
        }
        shots := shots + st.shots;
        quit := quit || isQuit;
        n := n + 1;
      }
      assert events[..n] == events;
      AfterEventsIsClicks(old(tempObjPos), events, mouse);
      AnyQuitIff(events);
    }

    /**
     * The drawing and update loop of one frame (main.py:133-150). Each rocket
     * the list iterator reaches is drawn, moved and, when off-screen or
     * inside the planet, removed from the list being iterated, so that the
     * rocket behind it is passed over until the next frame. Then, with an
     * anchor stored, the guide line and a preview rocket are drawn; the
     * preview is never added to the list.
     */
    method Frame(mouse: Point, trig: Trig) returns (trace: seq<Draw>)
      requires Valid() && AllCanStep(States(objects))
      modifies this, objects
      ensures Valid() && AllCanStep(States(objects))
      ensures tempObjPos == old(tempObjPos)
      ensures var fs := FrameFates(old(States(objects)), trig);
              && objects == Surviving(old(objects), fs)
              && States(old(objects)) == SettleAll(old(States(objects)), fs)
              && trace == [Background] + VisitedDraws(old(States(objects)), fs) + Preview(tempObjPos, mouse, trig)
    {
      ghost var bs := States(objects);
      forall j | 0 <= j < |bs|
        ensures bs[j].mass == RocketMass as real
      {
        StateAt(objects, j);
      }
      var list;
      list, trace := Sweep(objects, trig);
      objects := list;
      AfterSweep(old(objects), bs, trig, objects);
      var preview := DrawPreview(mouse, trig, old(objects));
      trace := trace + preview;
    }

    /**
     * One pass of the body of main()'s `while running` loop (main.py:115-152):
     * the frame's events, then the drawing and update loop over the list they
     * leave. The source raises in Rocket.move on a rocket launched from the
     * planet centre, so such launches are excluded.
     */
    method Tick(mouse: Point, events: seq<Event>, trig: Trig) returns (quit: bool, trace: seq<Draw>, ghost launched: seq<Rocket>)
      requires Valid() && AllCanStep(States(objects))
      requires AllCanStep(Launches(Clicks(tempObjPos, ClickPoints(events, mouse)).shots, trig))
      modifies this, objects
      ensures Valid() && AllCanStep(States(objects))
      ensures quit <==> QuitEvent in events
      ensures var st := Clicks(old(tempObjPos), ClickPoints(events, mouse));
              var bs := old(States(objects)) + Launches(st.shots, trig);
              && AllCanStep(bs)
              && tempObjPos == st.pending
              && |launched| == |st.shots|
              && (forall r :: r in launched ==> fresh(r))
              && objects == Surviving(old(objects) + launched, FrameFates(bs, trig))
              && trace == [Background] + VisitedDraws(bs, FrameFates(bs, trig)) + Preview(tempObjPos, mouse, trig)
    {
      quit := ProcessEvents(mouse, events, trig);
      launched := objects[|old(objects)|..];
      assert objects == old(objects) + launched;
      assert forall r :: r in objects ==> r in old(objects) || fresh(r);
      forall r | r in launched
        ensures fresh(r)
      {
        var j :| 0 <= j < |launched| && launched[j] == r;
        assert r == objects[|old(objects)| + j];
      }
      trace := Frame(mouse, trig);
    }

    /** The guide line and the preview rocket drawn while an anchor is stored (main.py:146-150). */
    method DrawPreview(mouse: Point, trig: Trig, ghost rs: seq<Rocket>) returns (draws: seq<Draw>)
      ensures draws == Preview(tempObjPos, mouse, trig)
      ensures States(rs) == old(States(rs)) && States(objects) == old(States(objects)) && Valid() == old(Valid())
    {
      draws := [];
      if tempObjPos.Some? {
        draws := draws + [Line(tempObjPos.value, mouse)];
        var preview := CreateRocket(tempObjPos.value, mouse, trig);
        draws := draws + [DrawOf(preview.State())];
      }
    }
  }

  /**
   * The loop of main.py:135-144 over the list `o`: each rocket the index
   * reaches is drawn, moved and, when it leaves the window or hits the
   * planet, removed from the list being iterated, so that the index skips
   * the rocket behind it.
   */
  method Sweep(o: seq<Rocket>, trig: Trig) returns (list: seq<Rocket>, trace: seq<Draw>)
    requires Distinct(o) && AllCanStep(States(o))
    modifies o
    ensures var fs := FrameFates(old(States(o)), trig);
            && list == Surviving(o, fs)
            && States(o) == SettleAll(old(States(o)), fs)
            && trace == [Background] + VisitedDraws(old(States(o)), fs)
  {
    list := o;
    ghost var bs := States(o);
    ghost var k := 0;
    trace := [Background];
    var i := 0;
    ReachedStart(o, bs, trig);
    while i < |list|
      invariant Reached(o, bs, trig, k, list, i, States(o), trace)
      decreases |o| - k
    {
      ReachedNext(o, bs, trig, k, list, i, States(o), trace);
      var obj := list[i];
      StateAt(o, k);
      ghost var states := States(o);
      ghost var drawn := trace;
      trace := trace + [DrawOf(obj.State())];
      MoveSlot(obj, o, k, trig);
      var offScreen := OffScreen(obj.x, obj.y);
      var collided := Collided(obj.x, obj.y);
      if offScreen || collided {
        k := ReachedDropped(o, bs, trig, k, list, i, states, drawn);
        list := RemoveFirst(list, obj);
      } else {
        ReachedKept(o, bs, trig, k, list, i, states, drawn);
        k := k + 1;
      }
      i := i + 1;
    }
    ReachedEnd(o, bs, trig, k, list, i, States(o), trace);
  }

  /** After the sweep the list is still free of repeats, and its rockets can move again and have the launch mass. */
  lemma AfterSweep(o: seq<Rocket>, bs: seq<RocketState>, trig: Trig, list: seq<Rocket>)
    requires Distinct(o) && AllCanStep(bs) && |o| == |bs|
    requires forall j :: 0 <= j < |bs| ==> bs[j].mass == RocketMass as real
    requires list == Surviving(o, FrameFates(bs, trig))
    requires States(o) == SettleAll(bs, FrameFates(bs, trig))
    ensures Distinct(list) && AllCanStep(States(list))
    ensures forall m :: 0 <= m < |list| ==> list[m].mass == RocketMass as real
  {
    var fs := FrameFates(bs, trig);
    StatesSurviving(o, fs);
    FrameKeepsCanStep(bs, trig, RocketMass as real);
    SurvivingDistinct(o, fs);
    forall m | 0 <= m < |list|
      ensures list[m].mass == RocketMass as real
    {
      StateAt(list, m);
    }
  }

  /** A prefix of a prefix of a list is a prefix of it. */
  lemma PrefixOfPrefix<T>(o: seq<T>, mid: seq<T>, cur: seq<T>)
    requires |o| <= |mid| <= |cur| && mid[..|o|] == o && cur[..|mid|] == mid
    ensures cur[..|o|] == o
  {
    assert cur[..|mid|][..|o|] == cur[..|o|];
  }

  /** Moves the rocket in slot k of a list of distinct rockets: only that slot's state changes. */
  method MoveSlot(obj: Rocket, ghost rs: seq<Rocket>, ghost k: nat, trig: Trig)
    requires Distinct(rs) && k < |rs| && obj == rs[k] && CanStep(obj.State())
    modifies obj
    ensures obj.State() == Step(old(obj.State()), trig)
    ensures States(rs) == old(States(rs))[k := obj.State()]
  {
    ghost var before := States(rs);
    DistinctPairs(rs);
    forall j | 0 <= j < |rs|
      ensures before[j] == rs[j].State()
    {
      StateAt(rs, j);
    }
    obj.Move(trig);
    forall j | 0 <= j < |rs|
      ensures States(rs)[j] == before[k := obj.State()][j]
    {
      StateAt(rs, j);
    }
  }

  /** The states of the rockets left are the states of the slots left. */
  lemma {:induction false} StatesSurviving(rs: seq<Rocket>, fs: seq<Fate>)
    requires |rs| == |fs|
    ensures States(Surviving(rs, fs)) == Surviving(States(rs), fs)
  {
    if rs != [] {
      var n := |rs| - 1;
      StatesSurviving(rs[..n], fs[..n]);
      assert States(rs)[..n] == States(rs[..n]);
      StatesAppend(Surviving(rs[..n], fs[..n]), if fs[n].Dropped? then [] else [rs[n]]);
    }
  }

  lemma {:induction false} ClickPointsAppend(a: seq<Event>, b: seq<Event>, mouse: Point)
    ensures ClickPoints(a + b, mouse) == ClickPoints(a, mouse) + ClickPoints(b, mouse)
    decreases |b|
  {
    if b != [] {
      var n := |b| - 1;
      assert (a + b)[..|a| + n] == a + b[..n];
      ClickPointsAppend(a, b[..n], mouse);
    } else {
      assert a + b == a;
    }
  }

  lemma {:induction false} LaunchesAppend(a: seq<Shot>, b: seq<Shot>, trig: Trig)
    ensures Launches(a + b, trig) == Launches(a, trig) + Launches(b, trig)
    decreases |b|
  {
    if b == [] {
      assert a + b == a;
    } else {
      var n := |b| - 1;
      assert (a + b)[..|a| + n] == a + b[..n];
      LaunchesAppend(a, b[..n], trig);
    }
  }
}
