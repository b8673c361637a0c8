/** What the whole kernel shares: optional results, return codes and the layout of addresses. */
module Kernel {
  /** A pointer that may be NULL, or a result that may be missing. */
  datatype Option<+T> = None | Some(value: T)

  const E_SUCCESS: int := 0
  const E_ERROR: int := -1

  /** The null pointer, where addresses are numbers. */
  const NULL: nat := 0

  const PAGE_SIZE: nat := 4096
  const KERNEL_START_VIRT: nat := 0xC000_0000

  /** The byte at address `a` is on page `x`. */
  predicate OnPage(a: nat, x: nat) { a / PAGE_SIZE == x }

  /** One past the largest 32-bit address. */
  const WORD: nat := 0x1_0000_0000
}
