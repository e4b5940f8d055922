/** The answers to a handler's remote calls. A handler that awaits the database driver or
    the platform's API several times is given, in the order it makes them, whether each
    call is answered; an unanswered call raises. Calls past the end of the list are
    answered, so the empty list is a fully reliable network. */
module Calls {
  /** Whether call `k` of a handler is answered. */
  predicate Answered(net: seq<bool>, k: nat) {
    k >= |net| || net[k]
  }

  /** Every call is answered. */
  predicate Reliable(net: seq<bool>) {
    forall k :: 0 <= k < |net| ==> net[k]
  }

  /** How many of the `n` calls from call `from` on a loop makes before the first one that
      is not answered: a loop that awaits once per step stops at its first failure. */
  function AnsweredRun(net: seq<bool>, from: nat, n: nat): (m: nat)
    ensures m <= n
    ensures forall k :: from <= k < from + m ==> Answered(net, k)
    ensures m < n ==> !Answered(net, from + m)
    ensures Reliable(net) ==> m == n
    decreases n
  {
    if n == 0 || !Answered(net, from) then 0
    else
      1 + AnsweredRun(net, from + 1, n - 1)
  }
}
