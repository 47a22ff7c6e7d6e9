/** Definitions kept at arm's length. */
module Veils {

  /**
   `f(x)`, but a few unfoldings away: proofs that only pass the value along are
   not distracted by how it is computed. `Lift` brings the definition back.
   */
  function Veil<A, B>(f: A -> B, x: A, depth: nat): B
    decreases depth
  {
    if depth == 0 then f(x) else Veil(f, x, depth - 1)
  }

  lemma {:induction false} Lift<A, B>(f: A -> B, x: A, depth: nat)
    ensures Veil(f, x, depth) == f(x)
  {
    if depth > 0 {
      Lift(f, x, depth - 1);
    }
  }
}
