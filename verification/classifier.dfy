/**
 * The one-pass traversal that prepares a freshly loaded model: every mesh
 * gets shadows, decorative parts are hidden, and the face mesh is bound
 * and given its derived material.
 *
 * The scene graph is given as its nodes in traversal order; a mesh is
 * identified by its position in that order.
 */
module Classifier {
  import opened Wrappers
  import opened Ascii
  import opened Materials

  datatype Node =
    | Mesh(name: string, visible: bool, castShadow: bool, receiveShadow: bool, slot: Slot)
    | Object(name: string, visible: bool)

  /** The lower-cased name mentions a decorative part that is never shown. */
  predicate HiddenName(name: string)
  {
    var n := Lower(name);
    Contains(n, "wing") || Contains(n, "feet") || Contains(n, "shoe")
  }

  /** The lower-cased name marks the face. */
  predicate FaceName(name: string)
  {
    var n := Lower(name);
    Contains(n, "face") || Contains(n, "head")
  }

  /** Both name tests ignore ASCII case: a lower-cased name is classified like the name itself. */
  lemma NameTestsIgnoreCase(name: string)
    ensures HiddenName(Lower(name)) == HiddenName(name)
    ensures FaceName(Lower(name)) == FaceName(name)
  {
    LowerIdempotent(name);
  }

  predicate IsHidden(n: Node)
  {
    n.Mesh? && HiddenName(n.name)
  }

  predicate IsFace(n: Node)
  {
    n.Mesh? && FaceName(n.name)
  }

  /** A face mesh that holds a single material, i.e. one whose material is cloned. */
  predicate IsClonedFace(n: Node)
  {
    IsFace(n) && n.slot.Single?
  }

  /**
   * What the traversal does to one node. Hiding and face binding are two
   * independent tests, so a node can be both hidden and the face.
   */
  function ClassifyNode(n: Node): (r: Node)
    ensures r.Mesh? == n.Mesh? && r.name == n.name
    ensures r.Mesh? ==> r.castShadow && r.receiveShadow
    ensures IsHidden(n) ==> !r.visible
    ensures !IsHidden(n) ==> r.visible == n.visible
    ensures IsFace(n) ==> r.slot == Install(n.slot)
    ensures n.Mesh? && !IsFace(n) ==> r.slot == n.slot
    ensures n.Object? ==> r == n
  {
    match n
    case Object(_, _) => n
    case Mesh(name, visible, _, _, slot) =>
      Mesh(name,
           if HiddenName(name) then false else visible,
           true, true,
           if FaceName(name) then Install(slot) else slot)
  }

  /**
   * The viewer's refs after the traversal: the classified nodes, the bound
   * face mesh (`faceMesh`) and the untouched backup of its material
   * (`originalMaterial`).
   */
  datatype Setup = Setup(nodes: seq<Node>, face: Option<nat>, original: Option<Material>)

  /** Visits the next node; its index is the number of nodes already visited. */
  function Visit(acc: Setup, n: Node): Setup
  {
    Setup(acc.nodes + [ClassifyNode(n)],
          if IsFace(n) then Some(|acc.nodes|) else acc.face,
          if IsClonedFace(n) then Some(n.slot.material) else acc.original)
  }

  /** The traversal over the nodes in order, starting from null refs. */
  function Classify(ns: seq<Node>): (r: Setup)
    ensures |r.nodes| == |ns|
  {
    if ns == [] then Setup([], None, None)
    else
      var pre := Classify(ns[..|ns| - 1]);
      Visit(pre, ns[|ns| - 1])
  }

  /** The traversal treats every node on its own: node `i` of the output depends on node `i` of the input only. */
  lemma {:induction false} ClassifyPointwise(ns: seq<Node>)
    ensures forall i :: 0 <= i < |ns| ==> Classify(ns).nodes[i] == ClassifyNode(ns[i])
  {
    if ns != [] {
      ClassifyPointwise(ns[..|ns| - 1]);
    }
  }

  /** `i` is the last face mesh in traversal order. */
  predicate IsLastFace(ns: seq<Node>, i: int)
  {
    0 <= i < |ns| && IsFace(ns[i]) && forall j :: i < j < |ns| ==> !IsFace(ns[j])
  }

  /** `i` is the last face mesh in traversal order that holds a single material. */
  predicate IsLastClonedFace(ns: seq<Node>, i: int)
  {
    0 <= i < |ns| && IsClonedFace(ns[i]) && forall j :: i < j < |ns| ==> !IsClonedFace(ns[j])
  }

  /** The traversal binds the LAST face mesh, and binds nothing when no name matches. */
  lemma {:induction false} FaceIsLastMatch(ns: seq<Node>)
    ensures forall i :: Classify(ns).face == Some(i) <==> IsLastFace(ns, i)
    ensures Classify(ns).face == None <==> forall j :: 0 <= j < |ns| ==> !IsFace(ns[j])
  {
    if ns != [] {
      var pre := ns[..|ns| - 1];
      FaceIsLastMatch(pre);
      assert forall j :: 0 <= j < |pre| ==> pre[j] == ns[j];
    }
  }

  /**
   * The backup holds the pre-derivation material of the last face mesh that
   * has a single material; a face mesh with a material array leaves it alone.
   */
  lemma {:induction false} OriginalIsLastClonedMaterial(ns: seq<Node>)
    ensures forall i :: IsLastClonedFace(ns, i) ==> Classify(ns).original == Some(ns[i].slot.material)
    ensures Classify(ns).original == None <==> forall j :: 0 <= j < |ns| ==> !IsClonedFace(ns[j])
  {
    if ns != [] {
      var pre := ns[..|ns| - 1];
      OriginalIsLastClonedMaterial(pre);
      assert forall j :: 0 <= j < |pre| ==> pre[j] == ns[j];
    }
  }

  /** After the traversal, exactly the meshes with a decorative name are hidden; all cast and receive shadows. */
  lemma {:induction false} VisibilityAfterClassify(ns: seq<Node>)
    ensures forall i :: 0 <= i < |ns| && IsHidden(ns[i]) ==> !Classify(ns).nodes[i].visible
    ensures forall i :: 0 <= i < |ns| && !IsHidden(ns[i]) ==>
              Classify(ns).nodes[i].visible == ns[i].visible
    ensures forall i :: 0 <= i < |ns| && ns[i].Mesh? ==>
              Classify(ns).nodes[i].Mesh? && Classify(ns).nodes[i].castShadow
              && Classify(ns).nodes[i].receiveShadow
  {
    ClassifyPointwise(ns);
  }

  /** The bound face mesh carries the derived material when it has a single material. */
  lemma {:induction false} BoundFaceMaterial(ns: seq<Node>, i: nat)
    requires Classify(ns).face == Some(i)
    ensures i < |ns| && IsFace(ns[i]) && Classify(ns).nodes[i].Mesh?
    ensures Classify(ns).nodes[i].slot == Install(ns[i].slot)
  {
    FaceIsLastMatch(ns);
    ClassifyPointwise(ns);
  }

  /** Re-running the traversal over its own output changes no node and binds the same face. */
  lemma {:induction false} ClassifyIdempotent(ns: seq<Node>)
    ensures Classify(Classify(ns).nodes).nodes == Classify(ns).nodes
    ensures Classify(Classify(ns).nodes).face == Classify(ns).face
  {
    var once := Classify(ns).nodes;
    ClassifyPointwise(ns);
    ClassifyPointwise(once);
    forall i | 0 <= i < |ns|
      ensures ClassifyNode(once[i]) == once[i]
      ensures IsFace(once[i]) == IsFace(ns[i])
    {
      match ns[i]
      case Object(_, _) =>
      case Mesh(_, _, _, _, slot) =>
        if slot.Single? {
          DeriveIdempotent(slot.material);
        }
    }
    FaceIsLastMatch(ns);
    FaceIsLastMatch(once);
  }

  /** The backup a second traversal takes: a copy of the derived variant of the first backup. */
  function DerivedBackup(original: Option<Material>): Option<Material>
  {
    match original
    case None => None
    case Some(m) => Some(Derive(m))
  }

  /**
   * A second traversal over its own output finds the derived clones in
   * place, so the backup it takes is the derived material, not the one the
   * model was loaded with.
   */
  lemma {:induction false} RerunBackupIsDerived(ns: seq<Node>)
    ensures Classify(Classify(ns).nodes).original == DerivedBackup(Classify(ns).original)
  {
    if ns != [] {
      var pre := ns[..|ns| - 1];
      var n := ns[|ns| - 1];
      RerunBackupIsDerived(pre);
      var once := Classify(ns).nodes;
      assert once == Classify(pre).nodes + [ClassifyNode(n)];
      assert once[..|once| - 1] == Classify(pre).nodes;
      var m := ClassifyNode(n);
      assert IsClonedFace(m) == IsClonedFace(n);
      if IsClonedFace(n) {
        assert m.slot.material == Derive(n.slot.material);
      }
    }
  }
}
