/** Rounds of a cursor loop over a text, for reasoning about loops that may not stop. */
module Rounds {

  /** A loop state: the text and the cursor, -1 once the loop is over. */
  type State = (string, int)

  /** The state after `n` rounds of `body`, fewer once the cursor is -1. */
  function Iterate(body: State -> State, st: State, n: nat): State
    decreases n
  {
    if n == 0 || st.1 == -1 then st else Iterate(body, body(st), n - 1)
  }

  /**
   * States that `body` maps among themselves, none of which has the cursor
   * at -1, are never left: the loop does not stop, however many rounds.
   */
  lemma {:induction false} NeverExits(body: State -> State, inv: State -> bool, st: State, n: nat)
    requires inv(st)
    requires forall x :: inv(x) ==> inv(body(x))
    requires forall x :: inv(x) ==> x.1 != -1
    ensures Iterate(body, st, n).1 != -1
    decreases n
  {
    if n > 0 {
      NeverExits(body, inv, body(st), n - 1);
    }
  }
}
