/** The stack region of one task: a raw heap block of SZ_STACK plus one page of
    slack, a page-aligned base inside it, and the initial stack pointer at
    base + SZ_STACK. Addresses are unbounded naturals (no 64-bit wrap-around). */
module StackRegion {

  /** Usable bytes of every task stack. */
  const SZ_STACK: nat := 4096

  /** q is a multiple of unit (stated without division, so that every proof
      about alignment stays linear). */
  predicate IsMultiple(q: nat, unit: nat)
    requires unit > 0
    decreases q
  {
    q == 0 || (q >= unit && IsMultiple(q - unit, unit))
  }

  /** The contract of memory_align(p, unit): the smallest multiple of unit
      that is at least p. */
  function MemoryAlign(p: nat, unit: nat): (r: nat)
    requires unit > 0
    ensures IsMultiple(r, unit)
    ensures p <= r < p + unit
    ensures forall q :: p <= q < r ==> !IsMultiple(q, unit)
    decreases p
  {
    if p == 0 then 0
    else if p <= unit then unit
    else MemoryAlign(p - unit, unit) + unit
  }

  /** The initial stack pointer of a task: the top of its aligned stack,
      which for a base in the first page of the raw block stays inside that
      block of SZ_STACK plus one page. */
  function StackTop(raw: nat, base: nat, pageSize: nat): (top: nat)
    requires raw <= base < raw + pageSize
    ensures top - base == SZ_STACK
    ensures top <= raw + SZ_STACK + pageSize
  {
    base + SZ_STACK
  }

  /** What setup_stack computes from the block malloc returned. */
  datatype Region = Region(raw: nat, size: nat, base: nat, top: nat)

  /** The region of a task stack whose raw block starts at raw: the stack
      [base, top) is page-aligned and lies entirely inside the raw block
      [raw, raw + size). */
  function StackRegionOf(raw: nat, pageSize: nat): (r: Region)
    requires pageSize > 0
    ensures r.raw == raw && r.size == SZ_STACK + pageSize
    ensures IsMultiple(r.base, pageSize)
    ensures raw <= r.base && r.base < raw + pageSize
    ensures r.top - r.base == SZ_STACK
    ensures r.top <= raw + r.size
  {
    var base := MemoryAlign(raw, pageSize);
    Region(raw, SZ_STACK + pageSize, base, StackTop(raw, base, pageSize))
  }
}
