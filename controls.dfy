/** The minus buttons beside the work and break lengths: one minute less,
    but never below one minute. */
module Controls {

  /** The value the minus button writes back for a displayed length `n`. */
  function MinusOne(n: int): (r: int)
    ensures r == n <==> n == 1
    ensures n >= 1 ==> 1 <= r <= n
    ensures n >= 2 ==> r < n
  {
    if n == 1 then 1 else n - 1
  }

  /** The displayed length after `k` presses of a minus button. */
  function Presses(n: int, k: nat): int
  {
    if k == 0 then n else MinusOne(Presses(n, k - 1))
  }

  /** However often it is pressed, the minus button keeps a length of at least
      one minute at one minute or more, and brings it down to one minute once
      it has been pressed enough. */
  lemma {:induction false} PressesFloor(n: int, k: nat)
    requires n >= 1
    ensures Presses(n, k) >= 1
    ensures Presses(n, k) == if k < n then n - k else 1
  {
    if k > 0 {
      PressesFloor(n, k - 1);
    }
  }
}
