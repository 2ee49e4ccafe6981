/** Natural-number powers, shared by the binary, byte and decimal arithmetic. */
module Powers {

  /** base^k. */
  function Pow(base: nat, k: nat): (p: nat)
    ensures base >= 1 ==> p >= 1
  {
    if k == 0 then 1 else base * Pow(base, k - 1)
  }
}
