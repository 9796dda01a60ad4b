/**
  Sizes and limits shared by the parts.
 */
module Config {

  const PAGE_SIZE := 4096

  const INT_MIN := -0x8000_0000
  const INT_MAX := 0x7fff_ffff

  function Pow256(n: nat): (r: nat)
    ensures r > 0
  {
    if n == 0 then 1 else 256 * Pow256(n - 1)
  }
}
