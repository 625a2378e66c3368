# LVRBOY 3D model viewer — Dafny model

This project models the discrete behaviour of the site's interactive 3D
character viewer (`LvrboyModel`): the one-pass traversal that prepares the
loaded model, and the pointer handlers that drive its hover and click state.

- **Mesh classification.** The traversal visits the scene's nodes in order.
  Every mesh gets shadow casting and receiving. A mesh whose lower-cased name
  contains `wing`, `feet` or `shoe` is hidden. Separately, a mesh whose
  lower-cased name contains `face` or `head` is bound as the face mesh. If the
  face mesh holds a single material, it gets a cloned material. A standard-lit
  clone is first made pale and glowing: hue kept, saturation 0.05, lightness
  0.9, metalness 0.2, roughness 0.2, white emissive at intensity 0.2. A clone
  of any other kind is installed unmodified. The two name tests are
  independent `if`s. The binding is overwritten on every match, so the
  **last** matching mesh wins.
- **Pointer state.** `hovered`, `lastClickTime` (starts at 0) and the bob flag
  `clickAnimation`. Pointer-over and pointer-out set and clear `hovered`. Each
  click sets the bob flag and records its time. A click counts as a double
  click when it comes less than 300 ms after the recorded time. Only then,
  and only on a standard-lit face, does it start the flash. Events on any
  mesh other than the bound face mesh are ignored. A frame clears the bob
  flag once the render clock is past 0.5 s.
- **Render gate.** Nothing is drawn, and so no event reaches the handlers,
  until a scene is present and the mount effect has run.

A mesh is identified by its position in traversal order. The tweens and
cursor changes are recorded as effect tags (`TweenHoverIn`, `TweenFlash`, …).

Three facts about the code are easy to misread. First, the face binding is
overwritten on every match, so the last matching mesh wins. Second, hiding
and face binding are two independent `if`s, so a mesh such as `Head_Shoe` is
both hidden and bound. Third, a double click only starts tweens and raises
no event; the video modal opens from the headline button
(`src/components/Scene.tsx:112`).

The mount effect depends on `onLoad`, which the page passes as an inline
arrow (`src/components/Scene.tsx:62`), so the effect can run again over the
already prepared scene. A second run keeps the nodes and the face binding.
It does not keep the backup material: the backup becomes a copy of the
derived, pale material rather than the material the model was loaded with.

Files: `ascii.dfy` (lower-casing, substring search), `materials.dfy`,
`classifier.dfy` (the traversal), `interaction.dfy` (the handlers),
`viewer.dfy` (mount effect, render gate, dispatch), `scenarios.dfy`
(concrete scenes), `wrappers.dfy` (`Option`).

## Model

| member | source | states |
|---|---|---|
| Ascii.Lower | src/components/LvrboyModel.tsx:34 | ASCII lower-casing keeps the length and maps every character through the one-letter rule |
| Ascii.LowerChar | src/components/LvrboyModel.tsx:34 | the result is never an upper-case letter; non-letters are unchanged; an upper-case letter moves by 32 code points |
| Ascii.ContainsIff | src/components/LvrboyModel.tsx:35 | the `includes` test holds exactly when the pattern occurs at some position of the string |
| Classifier.NameTestsIgnoreCase | src/components/LvrboyModel.tsx:34-40 | the hide and face tests give the same answer for a name and its lower-cased form |
| Materials.Derive | src/components/LvrboyModel.tsx:48-60 | a standard-lit material becomes pale and glowing with its hue and other properties kept; any other kind is an unmodified clone; the kind never changes |
| Materials.DeriveIdempotent | src/components/LvrboyModel.tsx:48-60 | deriving the variant of an already derived material changes nothing |
| Materials.PaleIsFixedPoint | src/components/LvrboyModel.tsx:48-60 | a material that already has the pale look is its own derived variant |
| Materials.Install | src/components/LvrboyModel.tsx:44-63 | a single material is replaced by its derived clone; an array of materials is left in place |
| Classifier.ClassifyNode | src/components/LvrboyModel.tsx:30-64 | a mesh gets shadows, is hidden iff its name has a hide keyword (else keeps its visibility), and gets the installed clone iff its name has a face keyword; other nodes are untouched |
| Classifier.ClassifyPointwise | src/components/LvrboyModel.tsx:29-66 | the traversal maps each node on its own: output node i is the classification of input node i |
| Classifier.VisibilityAfterClassify | src/components/LvrboyModel.tsx:30-38 | after the traversal, every mesh with a hide keyword is invisible, every other node keeps its visibility, every mesh casts and receives shadows |
| Classifier.FaceIsLastMatch | src/components/LvrboyModel.tsx:40-42 | the bound face is mesh i iff i is the last face-named mesh in traversal order; it stays null iff no mesh name matches |
| Classifier.OriginalIsLastClonedMaterial | src/components/LvrboyModel.tsx:44-46 | the backup holds the pre-derivation material of the last face mesh with a single material, and is null iff there is none |
| Classifier.BoundFaceMaterial | src/components/LvrboyModel.tsx:40-63 | the bound face is a face-named mesh whose slot now holds the installed clone of its original material |
| Classifier.RerunBackupIsDerived | src/components/LvrboyModel.tsx:44-46 | a second traversal over its own output takes as backup the derived variant of the first backup (null stays null) |
| Classifier.ClassifyIdempotent | src/components/LvrboyModel.tsx:26-82 | re-running the traversal on its own output, as a re-run of the effect does, leaves nodes and binding unchanged |
| Interaction.Step | src/components/LvrboyModel.tsx:116-210 | events off the face mesh change nothing; over/out set/clear `hovered` only, always set the cursor and tween only on a standard-lit face; a face click sets the bob flag and `lastClickTime := now` and emits exactly one flash iff the face is standard-lit and `now - lastClickTime < 300`, nothing otherwise; a frame clears the bob flag exactly when it is raised and the clock is past 0.5 s, and changes nothing else |
| Interaction.HoveredIsLastFaceHover | src/components/LvrboyModel.tsx:125-169 | after any event sequence, `hovered` is true iff the last face hover event was a pointer-over, and unchanged if there was none |
| Interaction.LastClickIsLastFaceClick | src/components/LvrboyModel.tsx:171-210 | after any event sequence, `lastClickTime` is the time of the last face click, single or double, or its start value if there was none |
| Interaction.DoubleClickAgainstPrevious | src/components/LvrboyModel.tsx:176-181 | a face click flashes iff the face is standard-lit and it comes less than 300 ms after the immediately preceding face click, or after the start value if it is the first |
| Interaction.UnboundIsInert | src/components/LvrboyModel.tsx:128 | with no face mesh bound, no event sequence produces an effect or moves `hovered` or `lastClickTime` |
| Interaction.HoverIdempotent | src/components/LvrboyModel.tsx:125-169 | pointer-over and pointer-out on the face are idempotent and do not depend on the previous hover value |
| Interaction.BobClearedByNextLateFrame | src/components/LvrboyModel.tsx:115-122 | once the render clock is past 0.5 s, the frame right after a face click clears the bob flag |
| Interaction.FirstClickIsSingle | src/components/LvrboyModel.tsx:176-181 | from the mounted state (`lastClickTime` 0), a first face click at time 300 or later is not a double click, yet is recorded |
| Interaction.ThreeQuickClicksFlashTwice | src/components/LvrboyModel.tsx:171-210 | face clicks at t, t+250, t+400 start exactly two flashes |
| Interaction.SlowThirdClickFlashesOnce | src/components/LvrboyModel.tsx:171-210 | face clicks at t, t+250, t+600 start exactly one flash |
| Viewer.Fresh | src/components/LvrboyModel.tsx:13-22 | on first render the viewer holds the given scene, nothing is loaded, no face is bound, the backup is null and the pointer state is the initial one |
| Viewer.MountEffect | src/components/LvrboyModel.tsx:26-69 | without a scene the effect returns early; with one it runs the traversal and marks the model loaded, leaving the pointer state alone |
| Viewer.Render | src/components/LvrboyModel.tsx:212-214 | something is drawn iff a scene is present and the model is loaded, and what is drawn is the prepared nodes |
| Viewer.Dispatch | src/components/LvrboyModel.tsx:242-249 | an undrawn viewer ignores every event; a drawn one hands it to the handlers with the binding of its own setup; handling never changes the scene or the setup |
| Viewer.DrawnDispatchIsRun | src/components/LvrboyModel.tsx:125-210 | a drawn viewer handles any event sequence exactly as the handlers' state machine run with its own binding, in state and effects, leaving scene, setup and loading alone |
| Viewer.MountedDispatchIsRun | src/components/LvrboyModel.tsx:13-210 | after mounting a scene, any event sequence behaves as the state machine run from the initial state with that scene's face binding |
| Viewer.LitIffLastFaceStandard | src/components/LvrboyModel.tsx:44-63 | the bound face animates its material iff the last face mesh originally held a single standard-lit material |
| Viewer.NothingBeforeMount | src/components/LvrboyModel.tsx:212-214 | before the mount effect runs, nothing is drawn and every event is ignored |
| Viewer.RenderAfterMount | src/components/LvrboyModel.tsx:26-68 | after mounting with a scene, the classified nodes are drawn; without one, nothing is |
| Viewer.RemountKeepsBinding | src/components/LvrboyModel.tsx:26-82 | running the effect a second time draws the same nodes and keeps the same face binding, while the backup becomes the derived variant of the first backup |
| Scenarios.HeadShoeIsHiddenAndFace | src/components/LvrboyModel.tsx:35-43 | the name `Head_Shoe` passes both the hide test and the face test |
| Scenarios.HeadShoeScene | src/components/LvrboyModel.tsx:35-43 | a lone `Head_Shoe` mesh is bound as the face and hidden |
| Scenarios.HeadIsFace | src/components/LvrboyModel.tsx:34-43 | `head_01` is a face mesh and not hidden |
| Scenarios.ShoeIsHidden | src/components/LvrboyModel.tsx:34-43 | `shoe_L` is hidden and not a face mesh |
| Scenarios.BodyIsPassive | src/components/LvrboyModel.tsx:34-43 | `body` is neither hidden nor a face mesh |
| Scenarios.SampleScene | src/components/LvrboyModel.tsx:29-66 | loading `head_01`, `shoe_L`, `body` binds `head_01` with a standard-lit clone, hides `shoe_L`, and leaves `body` visible with shadows on |
| Scenarios.SampleRerunLosesBackup | src/components/LvrboyModel.tsx:44-46 | in the sample scene the first backup is the loaded skin, and after a re-run it is the pale variant, which differs from the skin |
| Scenarios.MountedDoubleClick | src/components/LvrboyModel.tsx:171-210 | in a mounted scene, face clicks 250 ms apart flash once, and a click on another mesh between them is ignored |

## Left out

- Per-frame motion (`useFrame`, lines 85-113): the pointer-driven rotation lerp and the hover pulse are floating-point sine and lerp arithmetic. Only the clearing of the bob flag (lines 116-121) is modelled, not the bob offset itself.
- Tween values and timelines: the animated emissive intensity, roughness and scale values are not tracked. Each tween is recorded only as an effect tag.
- The cursor style is recorded as an effect tag; the DOM is not modelled.
- Asset loading (`useGLTF`, `preload`) is left out. The scene is a parameter that is either present or absent.
- Disposal of geometry and materials in the effect cleanup (lines 71-81) is left out: it releases GPU resources and has no logical result.
- `console.log` calls are left out.
- The `onLoad` callback call (line 69) is left out. Only the `modelLoaded` flag it accompanies is modelled.
- Unicode `toLowerCase` is left out: only ASCII letters are lower-cased.
- Colour conversion is left out. Colours are held in hue/saturation/lightness form. The RGB round trip of `getHSL`/`setHSL` is not modelled, so the hue of a grey colour is taken as stored.
- Material classes are reduced to standard-lit (this includes physical materials, which are subclasses) or other. Only the standard-lit parameters the viewer touches are modelled, plus opacity as a representative of the rest.
- Which mesh a pointer event hits (ray casting, including whether hidden meshes can be hit) belongs to the rendering library. An event simply names the mesh it hit.
- React state batching and stale closures are left out. Events are handled one at a time, each seeing the previous event's state.
- Viewer.MountEffect: rebuilds the face binding and the backup from null on every run, while the component keeps both refs and overwrites them only on a match. The two agree because the effect only ever re-runs over the same scene, whose face meshes match again.
- Classifier.Classify: its own contract states only the output length. Its meaning is stated by the lemmas about it (`ClassifyPointwise`, `FaceIsLastMatch`, `OriginalIsLastClonedMaterial`).
- `src/components/Scene.tsx`, `src/components/VimeoPlayer.tsx`, `src/components/InteractiveButton.tsx`, `next.config.js`, `src/app/page.tsx` and `src/app/not-found.tsx` are not part of this model. They are layout, DOM, a third-party player, a CSS timer and build configuration.
