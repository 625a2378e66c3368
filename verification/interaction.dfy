/**
 * The viewer's pointer handlers as a state machine over `hovered`,
 * `lastClickTime` and the bob flag `clickAnimation`.
 *
 * Every pointer handler first compares the event's mesh with the bound face
 * mesh and does nothing for any other mesh. The tweens and the cursor style
 * the handlers start are recorded as effects, not animated.
 */
module Interaction {
  import opened Wrappers

  /** Two face clicks less than this many milliseconds apart make a double click. */
  const DoubleClickWindow: int := 300

  /** Once the render clock is past this many seconds, a frame clears the bob flag. */
  const BobSeconds: real := 0.5

  /**
   * What the handlers know about the scene: which mesh (by traversal index)
   * is the face mesh, if any, and whether its active material is standard-lit.
   */
  datatype Binding = Binding(face: Option<nat>, lit: bool)

  datatype State = State(hovered: bool, lastClickTime: int, clickAnimation: bool)

  /** The state on mount. */
  const Initial: State := State(false, 0, false)

  datatype Event =
    | PointerOver(mesh: nat)
    | PointerOut(mesh: nat)
    | Click(mesh: nat, now: int)     // `now` is the wall clock in milliseconds
    | Frame(elapsed: real)           // the render clock in seconds

  datatype Cursor = Pointer | Auto

  datatype Effect =
    | SetCursor(cursor: Cursor)
    | TweenHoverIn     // glow up and grow slightly
    | TweenHoverOut    // back to the resting glow and scale
    | TweenFlash       // flashing glow and scale pop of a double click

  datatype Outcome = Outcome(state: State, effects: seq<Effect>)

  predicate OnFace(b: Binding, mesh: nat)
  {
    b.face == Some(mesh)
  }

  predicate IsPointerEvent(e: Event)
  {
    !e.Frame?
  }

  /** A pointer event whose mesh is the bound face mesh. */
  predicate HitsFace(b: Binding, e: Event)
  {
    IsPointerEvent(e) && OnFace(b, e.mesh)
  }

  predicate IsFaceClick(b: Binding, e: Event)
  {
    e.Click? && OnFace(b, e.mesh)
  }

  /** A pointer-over or pointer-out on the face mesh. */
  predicate IsFaceHover(b: Binding, e: Event)
  {
    (e.PointerOver? || e.PointerOut?) && OnFace(b, e.mesh)
  }

  /** A click at `now` is a double click when it comes less than 300 ms after the recorded click. */
  predicate IsDoubleClick(s: State, now: int)
  {
    now - s.lastClickTime < DoubleClickWindow
  }

  /** One event. */
  function Step(b: Binding, s: State, e: Event): (o: Outcome)
    // events on any other mesh are ignored
    ensures IsPointerEvent(e) && !HitsFace(b, e) ==> o == Outcome(s, [])
    // hovering sets or clears the flag whatever its previous value, touching nothing else
    ensures e.PointerOver? && HitsFace(b, e) ==> o.state == s.(hovered := true)
    ensures e.PointerOut? && HitsFace(b, e) ==> o.state == s.(hovered := false)
    // hovering the face always sets the cursor; the glow and scale tweens need a standard-lit face
    ensures e.PointerOver? && HitsFace(b, e) ==>
              o.effects == [SetCursor(Pointer)] + (if b.lit then [TweenHoverIn] else [])
    ensures e.PointerOut? && HitsFace(b, e) ==>
              o.effects == [SetCursor(Auto)] + (if b.lit then [TweenHoverOut] else [])
    // every face click raises the bob flag and records its time, double or not
    ensures IsFaceClick(b, e) ==> o.state == s.(clickAnimation := true, lastClickTime := e.now)
    // the flash starts exactly on a double click on a standard-lit face
    ensures TweenFlash in o.effects <==> IsFaceClick(b, e) && b.lit && IsDoubleClick(s, e.now)
    // a face click emits one flash on a double click on a standard-lit face, and nothing otherwise
    ensures IsFaceClick(b, e) ==>
              o.effects == (if b.lit && IsDoubleClick(s, e.now) then [TweenFlash] else [])
    // a frame only ever clears the bob flag
    ensures e.Frame? ==> o.effects == [] && o.state.hovered == s.hovered
                         && o.state.lastClickTime == s.lastClickTime
                         && (o.state.clickAnimation ==> s.clickAnimation)
    // and clears it exactly when it is raised and the render clock is past half a second
    ensures e.Frame? ==> o.state.clickAnimation == (s.clickAnimation && !(e.elapsed > BobSeconds))
  {
    match e
    case PointerOver(mesh) =>
      if !OnFace(b, mesh) then Outcome(s, [])
      else Outcome(s.(hovered := true),
                   [SetCursor(Pointer)] + (if b.lit then [TweenHoverIn] else []))
    case PointerOut(mesh) =>
      if !OnFace(b, mesh) then Outcome(s, [])
      else Outcome(s.(hovered := false),
                   [SetCursor(Auto)] + (if b.lit then [TweenHoverOut] else []))
    case Click(mesh, now) =>
      if !OnFace(b, mesh) then Outcome(s, [])
      else
        var flash := IsDoubleClick(s, now) && b.lit;
        Outcome(s.(clickAnimation := true, lastClickTime := now),
                if flash then [TweenFlash] else [])
    case Frame(elapsed) =>
      if s.clickAnimation && elapsed > BobSeconds then Outcome(s.(clickAnimation := false), [])
      else Outcome(s, [])
  }

  /** A sequence of events, in order; the effects are concatenated. */
  function Run(b: Binding, s: State, es: seq<Event>): (o: Outcome)
  {
    if es == [] then Outcome(s, [])
    else
      var pre := Run(b, s, es[..|es| - 1]);
      var last := Step(b, pre.state, es[|es| - 1]);
      Outcome(last.state, pre.effects + last.effects)
  }

  /** Number of flashes among the effects. */
  function Flashes(effects: seq<Effect>): nat
  {
    multiset(effects)[TweenFlash]
  }

  /** `i` is the last face-mesh hover event of `es`. */
  predicate IsLastFaceHover(b: Binding, es: seq<Event>, i: int)
  {
    0 <= i < |es| && IsFaceHover(b, es[i])
    && forall j :: i < j < |es| ==> !IsFaceHover(b, es[j])
  }

  /** `i` is the last face-mesh click of `es`. */
  predicate IsLastFaceClick(b: Binding, es: seq<Event>, i: int)
  {
    0 <= i < |es| && IsFaceClick(b, es[i])
    && forall j :: i < j < |es| ==> !IsFaceClick(b, es[j])
  }

  /**
   * After any run, `hovered` is decided by the last hover event on the face
   * mesh alone: true after a pointer-over, false after a pointer-out, and
   * unchanged when the face mesh saw no hover event.
   */
  lemma {:induction false} HoveredIsLastFaceHover(b: Binding, s: State, es: seq<Event>)
    ensures forall i :: IsLastFaceHover(b, es, i) ==>
              Run(b, s, es).state.hovered == es[i].PointerOver?
    ensures (forall j :: 0 <= j < |es| ==> !IsFaceHover(b, es[j])) ==>
              Run(b, s, es).state.hovered == s.hovered
  {
    if es != [] {
      var pre := es[..|es| - 1];
      var last := es[|es| - 1];
      HoveredIsLastFaceHover(b, s, pre);
      var before := Run(b, s, pre).state;
      assert Run(b, s, es).state == Step(b, before, last).state;
      if !IsFaceHover(b, last) {
        assert Step(b, before, last).state.hovered == before.hovered;
        forall i | IsLastFaceHover(b, es, i)
          ensures IsLastFaceHover(b, pre, i)
        {
          assert pre[i] == es[i];
        }
        if forall j :: 0 <= j < |es| ==> !IsFaceHover(b, es[j]) {
          assert forall j :: 0 <= j < |pre| ==> pre[j] == es[j];
        }
      }
    }
  }

  /**
   * After any run, `lastClickTime` is the time of the last click on the face
   * mesh, or its starting value when there was none; clicks elsewhere never
   * move it, and single clicks move it as much as double ones.
   */
  lemma {:induction false} LastClickIsLastFaceClick(b: Binding, s: State, es: seq<Event>)
    ensures forall i :: IsLastFaceClick(b, es, i) ==>
              Run(b, s, es).state.lastClickTime == es[i].now
    ensures (forall j :: 0 <= j < |es| ==> !IsFaceClick(b, es[j])) ==>
              Run(b, s, es).state.lastClickTime == s.lastClickTime
  {
    if es != [] {
      var pre := es[..|es| - 1];
      var last := es[|es| - 1];
      LastClickIsLastFaceClick(b, s, pre);
      var before := Run(b, s, pre).state;
      assert Run(b, s, es).state == Step(b, before, last).state;
      if !IsFaceClick(b, last) {
        assert Step(b, before, last).state.lastClickTime == before.lastClickTime;
        forall i | IsLastFaceClick(b, es, i)
          ensures IsLastFaceClick(b, pre, i)
        {
          assert pre[i] == es[i];
        }
        if forall j :: 0 <= j < |es| ==> !IsFaceClick(b, es[j]) {
          assert forall j :: 0 <= j < |pre| ==> pre[j] == es[j];
        }
      }
    }
  }

  /**
   * The `k`-th event of a run flashes exactly when it is a face click on a
   * standard-lit face that comes less than 300 ms after the immediately
   * preceding face click (or after the starting `lastClickTime` if it is the
   * first face click).
   */
  lemma DoubleClickAgainstPrevious(b: Binding, s: State, es: seq<Event>, k: nat)
    requires k < |es| && IsFaceClick(b, es[k])
    ensures forall i :: IsLastFaceClick(b, es[..k], i) ==>
              (TweenFlash in Step(b, Run(b, s, es[..k]).state, es[k]).effects
               <==> b.lit && es[k].now - es[i].now < DoubleClickWindow)
    ensures (forall j :: 0 <= j < k ==> !IsFaceClick(b, es[j])) ==>
              (TweenFlash in Step(b, Run(b, s, es[..k]).state, es[k]).effects
               <==> b.lit && es[k].now - s.lastClickTime < DoubleClickWindow)
  {
    LastClickIsLastFaceClick(b, s, es[..k]);
  }

  /** With no face mesh bound, no pointer event has any effect and only a frame can clear the bob flag. */
  lemma {:induction false} UnboundIsInert(b: Binding, s: State, es: seq<Event>)
    requires b.face == None
    ensures Run(b, s, es).effects == []
    ensures Run(b, s, es).state.hovered == s.hovered
    ensures Run(b, s, es).state.lastClickTime == s.lastClickTime
    ensures Run(b, s, es).state.clickAnimation ==> s.clickAnimation
  {
    if es != [] {
      UnboundIsInert(b, s, es[..|es| - 1]);
    }
  }

  /** Pointer-over and pointer-out on the face are idempotent and forget the previous hover state. */
  lemma HoverIdempotent(b: Binding, s: State, t: State, f: nat)
    requires b.face == Some(f)
    requires s.lastClickTime == t.lastClickTime && s.clickAnimation == t.clickAnimation
    ensures Step(b, Step(b, s, PointerOver(f)).state, PointerOver(f)) == Step(b, s, PointerOver(f))
    ensures Step(b, Step(b, s, PointerOut(f)).state, PointerOut(f)) == Step(b, s, PointerOut(f))
    ensures Step(b, s, PointerOver(f)) == Step(b, t, PointerOver(f))
    ensures Step(b, s, PointerOut(f)) == Step(b, t, PointerOut(f))
  {
  }

  /**
   * The bob flag is cleared against the render clock since mount, not since
   * the click: once that clock is past half a second, the first frame after a
   * face click clears the flag.
   */
  lemma BobClearedByNextLateFrame(b: Binding, s: State, f: nat, now: int, elapsed: real)
    requires b.face == Some(f) && elapsed > BobSeconds
    ensures !Run(b, s, [Click(f, now), Frame(elapsed)]).state.clickAnimation
  {
  }

  /** From the mounted state, a first face click at any time of at least 300 ms is never a double click. */
  lemma FirstClickIsSingle(b: Binding, f: nat, now: int)
    requires b.face == Some(f) && now >= DoubleClickWindow
    ensures TweenFlash !in Step(b, Initial, Click(f, now)).effects
    ensures Step(b, Initial, Click(f, now)).state.lastClickTime == now
  {
  }

  /** Flash count of a run from its parts. */
  lemma {:induction false} FlashesOfRun(b: Binding, s: State, es: seq<Event>)
    requires es != []
    ensures Flashes(Run(b, s, es).effects)
            == Flashes(Run(b, s, es[..|es| - 1]).effects)
               + (if TweenFlash in Step(b, Run(b, s, es[..|es| - 1]).state, es[|es| - 1]).effects then 1 else 0)
  {
  }

  /** Clicks at t, t+250 and t+400 on a standard-lit face: the second and third both flash. */
  lemma ThreeQuickClicksFlashTwice(b: Binding, f: nat, t: int)
    requires b == Binding(Some(f), true) && t >= DoubleClickWindow
    ensures Flashes(Run(b, Initial, [Click(f, t), Click(f, t + 250), Click(f, t + 400)]).effects) == 2
  {
    var es := [Click(f, t), Click(f, t + 250), Click(f, t + 400)];
    assert es[..2][..1] == es[..1];
    assert es[..1][..0] == [];
    FlashesOfRun(b, Initial, es);
    FlashesOfRun(b, Initial, es[..2]);
    FlashesOfRun(b, Initial, es[..1]);
  }

  /** Clicks at t, t+250 and t+600: only the second flashes. */
  lemma SlowThirdClickFlashesOnce(b: Binding, f: nat, t: int)
    requires b == Binding(Some(f), true) && t >= DoubleClickWindow
    ensures Flashes(Run(b, Initial, [Click(f, t), Click(f, t + 250), Click(f, t + 600)]).effects) == 1
  {
    var es := [Click(f, t), Click(f, t + 250), Click(f, t + 600)];
    assert es[..2][..1] == es[..1];
    assert es[..1][..0] == [];
    FlashesOfRun(b, Initial, es);
    FlashesOfRun(b, Initial, es[..2]);
    FlashesOfRun(b, Initial, es[..1]);
  }
}
