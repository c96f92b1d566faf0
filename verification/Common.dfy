/** What several of the models share. */
module Common {

  datatype Option<T> = None | Some(value: T)

  /** A 32-bit word. */
  type U32 = n: int | 0 <= n < 0x1_0000_0000

  lemma Associative<T>(a: seq<T>, b: seq<T>, c: seq<T>)
    ensures (a + b) + c == a + (b + c)
  {
  }

  function Pow2(n: nat): (r: nat)
    ensures r >= 1
  {
    if n == 0 then 1 else 2 * Pow2(n - 1)
  }
}
