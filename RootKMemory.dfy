/**
 * The copy of the header kept at the repository root, kmemory.h. Its macros
 * and its `kmm_alloc` are written out here from that file's own text and then
 * shown to compute the same as kmm/kmemory.h for every input, so every
 * property proved in module KMemory holds of this copy too.
 */
module RootKMemory {
  import opened CInt
  import KMemory

  /** `kmm_kilobytes(n)` of this copy: `1024*n` in the argument's type. */
  function Kilobytes(t: IntType, n: int): (r: Eval)
    requires Fits(t, n)
    ensures r.Defined? ==> Fits(t, r.value)
  {
    Mul(t, 1024, n)
  }

  /** `kmm_megabytes(n)` of this copy: `1024*kmm_kilobytes(n)`. */
  function Megabytes(t: IntType, n: int): (r: Eval)
    requires Fits(t, n)
    ensures r.Defined? ==> Fits(t, r.value)
    ensures !Signed(t) ==> r.Defined?
  {
    match Kilobytes(t, n)
    case Undefined => Undefined
    case Defined(k) => Mul(t, 1024, k)
  }

  /** `kmm_gigabytes(n)` of this copy: `1024*kmm_megabytes((uint64_t)n)`. */
  function Gigabytes(t: IntType, n: int): (r: int)
    requires Fits(t, n)
    ensures Fits(U64, r)
  {
    Mul(U64, 1024, Megabytes(U64, ToU64(t, n)).value).value
  }

  /** `kmm_terabytes(n)` of this copy, with the same missing factor 1024 as the library header. */
  function Terabytes(t: IntType, n: int): (r: int)
    requires Fits(t, n)
    ensures Fits(U64, r)
  {
    Mul(U64, 1024, Megabytes(U64, ToU64(t, n)).value).value
  }

  /** `kmm_alloc` of this copy: status, the pointer written to `*store`, and the size asked of `malloc`. */
  function AllocSpec(heapSize: int, virtAddrLoc: int, malloc: int -> KMemory.Ptr): (r: KMemory.AllocOutcome)
    requires Fits(I64, heapSize) && Fits(U64, virtAddrLoc)
    ensures r.stored == malloc(r.requested)
  {
    var size := ToU64(I64, heapSize);
    var allocation := malloc(size);
    KMemory.AllocOutcome(
      if allocation != KMemory.Null then KMemory.CREATE_LIFETIME_NO_VIRTADDR else KMemory.CREATE_LIFETIME_FAILED,
      allocation, size)
  }

  /** Each size macro of this copy computes what the library header's does, for every type and argument. */
  lemma MacrosAgree(t: IntType, n: int)
    requires Fits(t, n)
    ensures Kilobytes(t, n) == KMemory.Kilobytes(t, n)
    ensures Megabytes(t, n) == KMemory.Megabytes(t, n)
    ensures Gigabytes(t, n) == KMemory.Gigabytes(t, n)
    ensures Terabytes(t, n) == KMemory.Terabytes(t, n)
  {
  }

  /** This copy's `kmm_alloc` returns the same status, stores the same pointer and requests the same size. */
  lemma AllocAgrees(heapSize: int, virtAddrLoc: int, malloc: int -> KMemory.Ptr)
    requires Fits(I64, heapSize) && Fits(U64, virtAddrLoc)
    ensures AllocSpec(heapSize, virtAddrLoc, malloc) == KMemory.AllocSpec(heapSize, virtAddrLoc, malloc)
  {
  }

  /**
   * The closed forms of this copy's macros: 1024n and 1048576n in the
   * argument's type, 1024^3 * (uint64_t)n modulo 2^64, and `kmm_terabytes`
   * equal to `kmm_gigabytes` (1024^4 * n only at n == 0).
   */
  lemma ClosedForms(t: IntType, n: int)
    requires Fits(t, n)
    ensures Kilobytes(t, n) == Mul(t, 1024, n)
    ensures Megabytes(t, n) == Mul(t, 1024 * 1024, n)
    ensures Gigabytes(t, n) == (1024 * 1024 * 1024 * ToU64(t, n)) % TWO_64
    ensures Terabytes(t, n) == Gigabytes(t, n)
    ensures Terabytes(t, n) == 1024 * 1024 * 1024 * 1024 * n <==> n == 0
  {
    MacrosAgree(t, n);
    KMemory.MegabytesClosedForm(t, n);
    KMemory.GigabytesClosedForm(t, n);
    KMemory.TerabytesIsTiBOnlyAtZero(t, n);
  }

  /** The status contract of this copy: 2 exactly when the stored pointer is non-null, else 0; never 1. */
  lemma AllocStatus(heapSize: int, virtAddrLoc: int, malloc: int -> KMemory.Ptr)
    requires Fits(I64, heapSize) && Fits(U64, virtAddrLoc)
    ensures var r := AllocSpec(heapSize, virtAddrLoc, malloc);
      (r.status == KMemory.CREATE_LIFETIME_NO_VIRTADDR <==> r.stored != KMemory.Null) &&
      (r.status == KMemory.CREATE_LIFETIME_FAILED <==> r.stored == KMemory.Null) &&
      r.status != KMemory.CREATE_LIFETIME_SUCCESS
    ensures 0 <= heapSize ==> AllocSpec(heapSize, virtAddrLoc, malloc).requested == heapSize
  {
    AllocAgrees(heapSize, virtAddrLoc, malloc);
  }
}
