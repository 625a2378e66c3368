/**
 * Materials of the loaded model and the pale, glowing variant the viewer
 * derives for the face mesh.
 *
 * A material is either standard-lit (the only kind whose lighting
 * parameters the viewer touches) or of some other kind, which is carried
 * through untouched. Colours are kept in hue/saturation/lightness form,
 * the form the viewer reads and writes them in.
 */
module Materials {

  datatype Hsl = Hsl(h: real, s: real, l: real)

  /** `#ffffff`. */
  const White: Hsl := Hsl(0.0, 0.0, 1.0)

  /** The tuning constants the derived face material is given. */
  const PaleSaturation: real := 0.05
  const PaleLightness: real := 0.9
  const FaceMetalness: real := 0.2
  const FaceRoughness: real := 0.2
  const FaceEmissiveIntensity: real := 0.2

  datatype Material =
    | Standard(color: Hsl, metalness: real, roughness: real, emissive: Hsl,
               emissiveIntensity: real, opacity: real)
    | Other(kind: string)

  /** A mesh holds either one material or an array of them. */
  datatype Slot = Single(material: Material) | Multi(materials: seq<Material>)

  /** The derived material has the pale, glowing look. */
  predicate IsPale(m: Material)
  {
    m.Standard?
    && m.color.s == PaleSaturation && m.color.l == PaleLightness
    && m.metalness == FaceMetalness && m.roughness == FaceRoughness
    && m.emissive == White && m.emissiveIntensity == FaceEmissiveIntensity
  }

  /**
   * The clone installed on the face mesh. A standard-lit material becomes
   * pale and glowing with its hue kept; any other kind is cloned as is.
   */
  function Derive(m: Material): (d: Material)
    ensures d.Standard? <==> m.Standard?
    ensures m.Standard? ==> IsPale(d) && d.color.h == m.color.h && d.opacity == m.opacity
    ensures m.Other? ==> d == m
  {
    match m
    case Standard(c, _, _, _, _, op) =>
      Standard(Hsl(c.h, PaleSaturation, PaleLightness), FaceMetalness, FaceRoughness,
               White, FaceEmissiveIntensity, op)
    case Other(_) => m
  }

  /** Deriving from a derived material changes nothing more. */
  lemma DeriveIdempotent(m: Material)
    ensures Derive(Derive(m)) == Derive(m)
  {
  }

  /** A pale material is its own derived variant, so derivation is onto the pale ones. */
  lemma PaleIsFixedPoint(m: Material)
    requires IsPale(m)
    ensures Derive(m) == m
  {
  }

  /**
   * What ends up in a mesh's material slot: a single material is replaced
   * by its derived clone; an array of materials is left in place.
   */
  function Install(slot: Slot): (r: Slot)
    ensures r.Single? <==> slot.Single?
    ensures slot.Single? ==> r.material == Derive(slot.material)
    ensures slot.Multi? ==> r == slot
  {
    match slot
    case Single(m) => Single(Derive(m))
    case Multi(_) => slot
  }
}
