/** Pages and stretches of addresses or indices. */
module Extents {
  const PAGE_SIZE := 4096

  /** a .. a+m-1 and c .. c+n-1 do not meet. */
  predicate Apart(a: nat, m: nat, c: nat, n: nat) {
    a + m <= c || c + n <= a
  }
}
