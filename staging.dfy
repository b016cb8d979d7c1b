/**
 * The two-click launch protocol of the main loop: the first click stores an
 * anchor (`temp_obj_pos`), the second launches a rocket from the anchor toward
 * the click and clears the anchor. A stored anchor is a non-empty tuple, so
 * the source's `if temp_obj_pos:` tests only whether one is stored.
 */
module Staging {
  import opened Physics

  datatype Option<T> = None | Some(value: T)

  /** A launch request: create_rocket(anchor, target). */
  datatype Shot = Shot(anchor: Point, target: Point)

  /** The staging state after some clicks, and the launches they requested in order. */
  datatype Staged = Staged(pending: Option<Point>, shots: seq<Shot>)

  /** Number of stored anchors: 0 or 1. */
  function Held(pending: Option<Point>): nat
  {
    if pending.Some? then 1 else 0
  }

  /** One click at `click`: arms when idle, launches and disarms when armed. */
  function Click(pending: Option<Point>, click: Point): (r: Staged)
    ensures |r.shots| + Held(r.pending) == 1
    ensures r.shots != [] <==> pending.Some?
    ensures r.pending.Some? ==> r.pending.value == click
    ensures r.shots != [] ==> r.shots == [Shot(pending.value, click)]
  {
    match pending
    case Some(anchor) => Staged(None, [Shot(anchor, click)])
    case None => Staged(Some(click), [])
  }

  /** A run of clicks in order, starting from `pending`. */
  function Clicks(pending: Option<Point>, clicks: seq<Point>): Staged
    decreases |clicks|
  {
    if clicks == [] then Staged(pending, [])
    else
      var before := Clicks(pending, clicks[..|clicks| - 1]);
      var last := Click(before.pending, clicks[|clicks| - 1]);
      Staged(last.pending, before.shots + last.shots)
  }

  /** Every click either stores an anchor or uses one up in a launch: two clicks per launch. */
  lemma {:induction false} ClicksCount(pending: Option<Point>, clicks: seq<Point>)
    ensures var r := Clicks(pending, clicks);
            2 * |r.shots| + Held(r.pending) == |clicks| + Held(pending)
  {
    if clicks != [] {
      ClicksCount(pending, clicks[..|clicks| - 1]);
    }
  }

  /** Two runs of clicks in a row: the second starts from the anchor the first leaves. */
  lemma {:induction false} ClicksAppend(pending: Option<Point>, a: seq<Point>, b: seq<Point>)
    ensures var first := Clicks(pending, a);
            var second := Clicks(first.pending, b);
            Clicks(pending, a + b) == Staged(second.pending, first.shots + second.shots)
    decreases |b|
  {
    if b == [] {
      assert a + b == a;
    } else {
      var n := |b| - 1;
      assert a + b == (a + b[..n]) + [b[n]];
      assert b == b[..n] + [b[n]];
      ClicksAppend(pending, a, b[..n]);
      ClicksSnoc(pending, a + b[..n], b[n]);
      var first := Clicks(pending, a);
      ClicksSnoc(first.pending, b[..n], b[n]);
      var mid := Clicks(first.pending, b[..n]);
      var last := Click(mid.pending, b[n]);
      assert (first.shots + mid.shots) + last.shots == first.shots + (mid.shots + last.shots);
    }
  }

  /** One more click extends a run of clicks by what Click does from the anchor the run leaves. */
  lemma ClicksSnoc(pending: Option<Point>, clicks: seq<Point>, click: Point)
    ensures var before := Clicks(pending, clicks);
            var last := Click(before.pending, click);
            Clicks(pending, clicks + [click]) == Staged(last.pending, before.shots + last.shots)
  {
    assert (clicks + [click])[..|clicks|] == clicks;
  }

  /**
   * From idle, clicks pair up in order: launch j goes from click 2j to click
   * 2j+1, and an odd last click is left as the anchor.
   */
  lemma {:induction false} ClicksPairUp(clicks: seq<Point>)
    ensures var r := Clicks(None, clicks);
            && |r.shots| == |clicks| / 2
            && (forall j :: 0 <= j < |r.shots| ==> r.shots[j] == Shot(clicks[2 * j], clicks[2 * j + 1]))
            && r.pending == (if |clicks| % 2 == 0 then None else Some(clicks[|clicks| - 1]))
  {
    if clicks != [] {
      var init := clicks[..|clicks| - 1];
      ClicksPairUp(init);
      var before := Clicks(None, init);
      assert forall j :: 0 <= j < |init| ==> init[j] == clicks[j];
      if |init| % 2 == 1 {
        assert before.pending == Some(clicks[|clicks| - 2]);
      }
    }
  }

  /** Clicks A, B, C from idle launch one rocket from A toward B and leave C as the anchor. */
  lemma ThreeClicks(a: Point, b: Point, c: Point)
    ensures Clicks(None, [a, b, c]) == Staged(Some(c), [Shot(a, b)])
  {
    ClicksPairUp([a, b, c]);
  }

  /** Every launch is anchored at the initially stored anchor or at one of the clicks. */
  lemma {:induction false} AnchorsFromClicks(pending: Option<Point>, clicks: seq<Point>)
    ensures var r := Clicks(pending, clicks);
            && (forall j :: 0 <= j < |r.shots| ==> Some(r.shots[j].anchor) == pending || r.shots[j].anchor in clicks)
            && (r.pending.Some? ==> r.pending == pending || r.pending.value in clicks)
  {
    if clicks != [] {
      var init := clicks[..|clicks| - 1];
      AnchorsFromClicks(pending, init);
      assert forall p :: p in init ==> p in clicks;
    }
  }
}
