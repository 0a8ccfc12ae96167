// The part of a scene material (video::SMaterial) that the scene core
// reads.  The material header is not part of this model: only the fields
// the scene manager, the level loader and the scene nodes look at appear,
// and `isTransparent()` enters as the answer it gives.
module SceneMaterial {

  /** The material types the level loader chooses between; any other type
      is kept by its number. */
  datatype MaterialType = Solid | LightMap | OtherType(code: int)

  /** Texture1 and Texture2 are texture identities (the pointer value, 0 for
      none). */
  datatype Material = Material(Type: MaterialType, Texture1: int, Texture2: int, Transparent: bool)

  /** SMaterial::isTransparent. */
  predicate IsTransparent(m: Material)
  {
    m.Transparent
  }
}
