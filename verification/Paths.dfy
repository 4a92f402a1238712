/** Paths as lists of names; [] is the root. */
module Paths {
  type Path = seq<string>

  function Parent(p: Path): Path
    requires p != []
  {
    p[..|p| - 1]
  }
}
