/**
 * One mounted model viewer: the loaded scene (if any), whether the mount
 * effect has run, the refs it filled in, and the interaction state. Ties
 * the traversal to the pointer handlers and gates rendering on loading.
 */
module Viewer {
  import opened Wrappers
  import opened Classifier
  import opened Interaction

  datatype Viewer = Viewer(scene: Option<seq<Node>>, loaded: bool, setup: Setup, interaction: State)

  /** The first render, before the mount effect: nothing bound, nothing loaded. */
  function Fresh(scene: Option<seq<Node>>): (v: Viewer)
    ensures !v.loaded && v.setup.face == None && v.interaction == Initial
    ensures v.scene == scene && v.setup.original == None
  {
    Viewer(scene, false, Setup(if scene.Some? then scene.value else [], None, None), Initial)
  }

  /**
   * The mount effect: without a scene it returns early; otherwise it runs the
   * traversal over the scene's current nodes and marks the model loaded.
   */
  function MountEffect(v: Viewer): (r: Viewer)
    ensures v.scene.None? ==> r == v
    ensures v.scene.Some? ==> r.loaded && r.setup == Classify(v.scene.value)
                              && r.scene == Some(r.setup.nodes)
    ensures r.interaction == v.interaction
  {
    if v.scene.None? then v
    else
      var setup := Classify(v.scene.value);
      Viewer(Some(setup.nodes), true, setup, v.interaction)
  }

  /** The render gate: nothing is drawn until a scene is present and the model is loaded. */
  function Render(v: Viewer): (r: Option<seq<Node>>)
    ensures r.Some? <==> v.scene.Some? && v.loaded
    ensures r.Some? ==> r.value == v.setup.nodes
  {
    if v.scene.None? || !v.loaded then None else Some(v.setup.nodes)
  }

  /** A mesh whose active material is a single standard-lit one, the kind the tweens animate. */
  predicate HasLitMaterial(n: Node)
  {
    n.Mesh? && n.slot.Single? && n.slot.material.Standard?
  }

  /** The handlers' view of the setup: the bound mesh and whether its active material is standard-lit. */
  function BindingOf(setup: Setup): Binding
  {
    Binding(setup.face,
            setup.face.Some? && setup.face.value < |setup.nodes|
            && HasLitMaterial(setup.nodes[setup.face.value]))
  }

  /**
   * The bound face reacts with tweens exactly when the last face mesh of the
   * loaded scene held a single standard-lit material.
   */
  lemma {:induction false} LitIffLastFaceStandard(ns: seq<Node>, i: nat)
    requires Classify(ns).face == Some(i)
    ensures i < |ns| && ns[i].Mesh?
    ensures BindingOf(Classify(ns)).lit <==> ns[i].slot.Single? && ns[i].slot.material.Standard?
  {
    BoundFaceMaterial(ns, i);
  }

  /** An event reaches the handlers only while the model is rendered. */
  function Dispatch(v: Viewer, e: Event): (r: (Viewer, seq<Effect>))
    ensures Render(v).None? ==> r == (v, [])
    ensures r.0.scene == v.scene && r.0.loaded == v.loaded && r.0.setup == v.setup
    // a drawn viewer hands the event to the handlers, bound to its own setup
    ensures Render(v).Some? ==>
              Outcome(r.0.interaction, r.1) == Step(BindingOf(v.setup), v.interaction, e)
  {
    if Render(v).None? then (v, [])
    else
      var o := Step(BindingOf(v.setup), v.interaction, e);
      (v.(interaction := o.state), o.effects)
  }

  /** A sequence of events dispatched in order; the effects are concatenated. */
  function DispatchAll(v: Viewer, es: seq<Event>): (r: (Viewer, seq<Effect>))
  {
    if es == [] then (v, [])
    else
      var pre := DispatchAll(v, es[..|es| - 1]);
      var last := Dispatch(pre.0, es[|es| - 1]);
      (last.0, pre.1 + last.1)
  }

  /**
   * A drawn viewer runs every event sequence exactly as the handlers' state
   * machine does, with the binding of its own setup; scene, setup and
   * loading are never touched.
   */
  lemma {:induction false} DrawnDispatchIsRun(v: Viewer, es: seq<Event>)
    requires Render(v).Some?
    ensures DispatchAll(v, es).0 == v.(interaction := Run(BindingOf(v.setup), v.interaction, es).state)
    ensures DispatchAll(v, es).1 == Run(BindingOf(v.setup), v.interaction, es).effects
  {
    if es != [] {
      DrawnDispatchIsRun(v, es[..|es| - 1]);
    }
  }

  /**
   * After mounting a scene, every event sequence behaves as the state
   * machine run from the initial state with the scene's face binding, so
   * the lemmas about `Run` hold of the mounted viewer.
   */
  lemma {:induction false} MountedDispatchIsRun(ns: seq<Node>, es: seq<Event>)
    ensures var v := MountEffect(Fresh(Some(ns)));
            var o := Run(BindingOf(Classify(ns)), Initial, es);
            DispatchAll(v, es) == (v.(interaction := o.state), o.effects)
  {
    DrawnDispatchIsRun(MountEffect(Fresh(Some(ns))), es);
  }

  /** Before the mount effect has run, no frame is drawn and every event is ignored. */
  lemma NothingBeforeMount(scene: Option<seq<Node>>, e: Event)
    ensures Render(Fresh(scene)) == None
    ensures Dispatch(Fresh(scene), e) == (Fresh(scene), [])
  {
  }

  /** Mounting a loaded scene draws the classified nodes; mounting without one draws nothing. */
  lemma {:induction false} RenderAfterMount(ns: seq<Node>)
    ensures Render(MountEffect(Fresh(Some(ns)))) == Some(Classify(ns).nodes)
    ensures Render(MountEffect(Fresh(None))) == None
  {
  }

  /**
   * The effect re-runs when its `onLoad` dependency changes identity; the
   * second traversal leaves the nodes and the bound face as they were, but
   * the backup material is now a copy of the already derived material.
   */
  lemma {:induction false} RemountKeepsBinding(ns: seq<Node>)
    ensures Render(MountEffect(MountEffect(Fresh(Some(ns))))) == Render(MountEffect(Fresh(Some(ns))))
    ensures BindingOf(MountEffect(MountEffect(Fresh(Some(ns)))).setup).face
            == BindingOf(MountEffect(Fresh(Some(ns))).setup).face
    ensures MountEffect(MountEffect(Fresh(Some(ns)))).setup.original
            == DerivedBackup(MountEffect(Fresh(Some(ns))).setup.original)
  {
    ClassifyIdempotent(ns);
    RerunBackupIsDerived(ns);
  }
}
