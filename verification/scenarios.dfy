/**
 * Concrete scenes run through the traversal and the handlers.
 */
module Scenarios {
  import opened Wrappers
  import opened Ascii
  import opened Materials
  import opened Classifier
  import opened Interaction
  import opened Viewer

  const Skin: Material := Standard(Hsl(0.1, 0.6, 0.4), 0.0, 1.0, Hsl(0.0, 0.0, 0.0), 0.0, 1.0)

  function PlainMesh(name: string): Node
  {
    Mesh(name, true, false, false, Single(Skin))
  }

  /** A name holding both a hide keyword and a face keyword, in any case, is both hidden and the face. */
  lemma HeadShoeIsHiddenAndFace()
    ensures IsHidden(PlainMesh("Head_Shoe")) && IsFace(PlainMesh("Head_Shoe"))
  {
    var n := Lower("Head_Shoe");
    assert n == "head_shoe";
    assert OccursAt(n, "shoe", 5);
    ContainsIff(n, "shoe");
    assert "head" <= n;
  }

  /** `head_01` names the face and no decorative part. */
  lemma HeadIsFace()
    ensures IsFace(PlainMesh("head_01")) && !IsHidden(PlainMesh("head_01"))
  {
    LowerOfLower("head_01");
    assert "head" <= "head_01";
    MissingCharNotContained("head_01", "wing", 0);
    MissingCharNotContained("head_01", "feet", 0);
    MissingCharNotContained("head_01", "shoe", 0);
  }

  /** `shoe_L` names a decorative part and not the face. */
  lemma ShoeIsHidden()
    ensures IsHidden(PlainMesh("shoe_L")) && !IsFace(PlainMesh("shoe_L"))
  {
    assert Lower("shoe_L") == "shoe_l";
    assert "shoe" <= "shoe_l";
    MissingCharNotContained("shoe_l", "face", 0);
    MissingCharNotContained("shoe_l", "head", 3);
  }

  /** `body` names neither a decorative part nor the face. */
  lemma BodyIsPassive()
    ensures !IsHidden(PlainMesh("body")) && !IsFace(PlainMesh("body"))
  {
    LowerOfLower("body");
    MissingCharNotContained("body", "wing", 0);
    MissingCharNotContained("body", "feet", 0);
    MissingCharNotContained("body", "shoe", 0);
    MissingCharNotContained("body", "face", 0);
    MissingCharNotContained("body", "head", 0);
  }

  /** A scene of one mesh named `Head_Shoe`: it is hidden AND bound as the face. */
  lemma {:induction false} HeadShoeScene()
    ensures Classify([PlainMesh("Head_Shoe")]).face == Some(0)
    ensures !Classify([PlainMesh("Head_Shoe")]).nodes[0].visible
  {
    HeadShoeIsHiddenAndFace();
    FaceIsLastMatch([PlainMesh("Head_Shoe")]);
    assert IsLastFace([PlainMesh("Head_Shoe")], 0);
    ClassifyPointwise([PlainMesh("Head_Shoe")]);
  }

  const Sample: seq<Node> := [PlainMesh("head_01"), PlainMesh("shoe_L"), PlainMesh("body")]

  /** Loading `head_01`, `shoe_L`, `body`: the head is the face, the shoe is hidden, the body is left as is. */
  lemma {:induction false} SampleScene()
    ensures Classify(Sample).face == Some(0)
    ensures Classify(Sample).nodes[0].visible && Classify(Sample).nodes[2].visible
    ensures !Classify(Sample).nodes[1].visible
    ensures Classify(Sample).nodes[2] == PlainMesh("body").(castShadow := true, receiveShadow := true)
    ensures BindingOf(Classify(Sample)) == Binding(Some(0), true)
  {
    HeadIsFace();
    ShoeIsHidden();
    BodyIsPassive();
    FaceIsLastMatch(Sample);
    assert IsLastFace(Sample, 0);
    ClassifyPointwise(Sample);
    LitIffLastFaceStandard(Sample, 0);
  }

  /**
   * In a mounted scene whose face mesh is standard-lit, two clicks on the
   * face 250 ms apart flash once; a click on another mesh in between is
   * ignored and does not break the pair.
   */
  lemma {:induction false} MountedDoubleClick(ns: seq<Node>, f: nat, other: nat, t: int)
    requires BindingOf(Classify(ns)) == Binding(Some(f), true) && other != f
    requires t >= DoubleClickWindow
    ensures var v0 := MountEffect(Fresh(Some(ns)));
            var r1 := Dispatch(v0, Click(f, t));
            var r2 := Dispatch(r1.0, Click(other, t + 100));
            var r3 := Dispatch(r2.0, Click(f, t + 250));
            TweenFlash !in r1.1 && r2 == (r1.0, []) && TweenFlash in r3.1
            && r3.0.interaction.lastClickTime == t + 250
  {
  }

  /** In the sample scene, a re-run of the effect replaces the loaded skin in the backup by its pale variant. */
  lemma {:induction false} SampleRerunLosesBackup()
    ensures Classify(Sample).original == Some(Skin)
    ensures Classify(Classify(Sample).nodes).original == Some(Derive(Skin))
    ensures Derive(Skin) != Skin
  {
    HeadIsFace();
    ShoeIsHidden();
    BodyIsPassive();
    assert IsLastClonedFace(Sample, 0);
    OriginalIsLastClonedMaterial(Sample);
    RerunBackupIsDerived(Sample);
  }
}
