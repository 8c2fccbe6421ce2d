/** The version epoch test shared by the Rtools installer and the
    Renviron.site patcher (src/windows.rs:52, 83). */
module Epoch {

  /** `&ver[0..1] == "4" || ver == "devel"`: the version belongs to the
      Rtools 4.x family. Slicing the first byte of an empty version panics in
      the source, hence the precondition. */
  predicate IsRtools4(ver: string)
    requires |ver| >= 1
  {
    ver[0] == '4' || ver == "devel"
  }
}
