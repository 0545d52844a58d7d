/** The bounded confirmation polls of discovery start and stop: the adapter's
    `IsDiscovering` answer is read after each 200 ms delay, at most
    `PollLimit` times, and the loop leaves at the first answer it waits for. */
module Polling {

  const PollLimit: nat := 20

  /** Index of the first answer equal to `target`, or `|polls|` when there is none. */
  function FirstIndex(polls: seq<bool>, target: bool): (k: nat)
    ensures k <= |polls|
    ensures forall j :: 0 <= j < k ==> polls[j] != target
    ensures k < |polls| ==> polls[k] == target
  {
    if polls == [] then 0
    else if polls[0] == target then 0
    else 1 + FirstIndex(polls[1..], target)
  }

  /** Number of polls a loop that breaks on `target` performs: up to and
      including the first `target` answer, and all of them when none comes. */
  function PollsUntil(polls: seq<bool>, target: bool): (n: nat)
    requires polls != []
    ensures 1 <= n <= |polls|
    ensures forall j :: 0 <= j < n - 1 ==> polls[j] != target
    ensures polls[n - 1] == target <==> FirstIndex(polls, target) < |polls|
    ensures n < |polls| ==> polls[n - 1] == target
  {
    var k := FirstIndex(polls, target);
    if k < |polls| then k + 1 else |polls|
  }
}
