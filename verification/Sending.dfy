/** A run of sends that stops at the first refusal; the radio is asked once per frame. */
module Sending {
  import opened Bytes

  datatype Wire = Wire(to: Addr, frame: Bytes)

  /** How many of `n` consecutive sends, the first being number `base`, go through. */
  function Passed(accepts: nat -> bool, base: nat, n: nat): (k: nat)
    ensures k <= n
  {
    if n == 0 then 0
    else
      var k := Passed(accepts, base, n - 1);
      if k == n - 1 && accepts(base + n - 1) then n else k
  }

  lemma {:induction false} RefusedAt(accepts: nat -> bool, base: nat, k: nat, n: nat)
    requires k < n && Passed(accepts, base, k) == k && !accepts(base + k)
    ensures Passed(accepts, base, n) == k
  {
    if k + 1 < n { RefusedAt(accepts, base, k, n - 1); }
  }
}
