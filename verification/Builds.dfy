/** Where the program departs from what its other operations rely on, an operation takes a Build:
    Source is the program line by line, Repaired the same program with that line mended. */
module Builds {
  datatype Build = Source | Repaired
}
