/** Left and right: every mirrored pair of macros or branches of `tree.h` is one piece of code over a side. */
module Sides {

  datatype Side = L | R {
    function Other(): Side { if L? then R else L }
  }
}
