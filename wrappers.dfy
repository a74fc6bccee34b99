/** An optional value: the nullable `gfxFont` pointer, and a step that may or
    may not draw a glyph. */
module Wrappers {
  datatype Option<T> = None | Some(value: T)
}
