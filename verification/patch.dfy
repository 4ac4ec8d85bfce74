/** The IsGrounded postfix of Library/Cheat/Patches/Patch.cs: while the fly cheat has the
    flag up, the game's ground check reports the player as grounded. */
module GroundedPatch {

  /** The postfix as a function of the flag and the result the game computed. */
  function Postfix(isFlying: bool, result: bool): (r: bool)
    ensures isFlying ==> r
    ensures !isFlying ==> r == result
  {
    if isFlying then true else result
  }

  /** The postfix never turns true into false, and applying it twice is applying it
      once. */
  lemma PostfixMonotoneIdempotent(isFlying: bool, result: bool)
    ensures result ==> Postfix(isFlying, result)
    ensures Postfix(isFlying, Postfix(isFlying, result)) == Postfix(isFlying, result)
  {
  }

  /** PatchIsGrounded and its static IsFlying flag. */
  class PatchIsGrounded {
    var isFlying: bool

    /** The flag starts down. */
    constructor()
      ensures !isFlying
    {
      isFlying := false;
    }

    /** The Harmony postfix: overrides the result with true while flying. */
    method IsGrounded(result: bool) returns (r: bool)
      ensures r == Postfix(isFlying, result)
    {
      r := result;
      if isFlying {
        r := true;
      }
    }
  }
}
