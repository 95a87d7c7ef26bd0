/** The two DIZY variants and their sizes (the `Variant` enumeration). */
module Variants {

  datatype Variant = Dizy80 | Dizy128
  {
    /** `get_state_size`: width of the state in bits */
    function StateSize(): (n: nat)
      ensures n % 5 == 0 && n % 8 == 0 && n > 0
    {
      match this
      case Dizy80 => 120
      case Dizy128 => 160
    }

    /** `get_key_size`: width of the key (and of the IV) in bits */
    function KeySize(): (n: nat)
      ensures n % 2 == 0 && n < StateSize()
    {
      match this
      case Dizy80 => 80
      case Dizy128 => 128
    }

    /** `get_state_size() // 5`: the number of 5-bit lanes */
    function Lanes(): (n: nat)
      ensures 5 * n == StateSize()
    {
      StateSize() / 5
    }
  }
}
