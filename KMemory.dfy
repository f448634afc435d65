/**
 * The library header kmm/kmemory.h of the Kitsune Memory Manager: the
 * size-unit macros `kmm_kilobytes` … `kmm_terabytes`, the status codes of
 * `kmm_alloc`, and `kmm_alloc` itself, which asks the C allocator for the
 * lifetime heap and reports the outcome.
 */
module KMemory {
  import opened CInt

  const KiB: int := 1024
  const MiB: int := 1024 * 1024
  const GiB: int := 1024 * 1024 * 1024
  const TiB: int := 1024 * 1024 * 1024 * 1024

  // ---- Size-unit macros: each macro argument is an already evaluated value of type t ----

  /** `kmm_kilobytes(n)`: `1024*n`, evaluated in the argument's own type. */
  function Kilobytes(t: IntType, n: int): (r: Eval)
    requires Fits(t, n)
    ensures r.Defined? ==> Fits(t, r.value)
    ensures r.Defined? <==> !Signed(t) || Fits(t, KiB * n)
  {
    Mul(t, 1024, n)
  }

  /** `kmm_megabytes(n)`: `1024*kmm_kilobytes(n)`, still in the argument's own type. */
  function Megabytes(t: IntType, n: int): (r: Eval)
    requires Fits(t, n)
    ensures r.Defined? ==> Fits(t, r.value)
    ensures !Signed(t) ==> r.Defined?
  {
    match Kilobytes(t, n)
    case Undefined => Undefined
    case Defined(k) => Mul(t, 1024, k)
  }

  /** `kmm_gigabytes(n)`: `1024*kmm_megabytes((uint64_t)n)`, a `uint64_t`. */
  function Gigabytes(t: IntType, n: int): (r: int)
    requires Fits(t, n)
    ensures Fits(U64, r)
  {
    Mul(U64, 1024, Megabytes(U64, ToU64(t, n)).value).value
  }

  /**
   * `kmm_terabytes(n)` as written: `1024*kmm_megabytes((uint64_t)n)`, the
   * same expression as `kmm_gigabytes(n)`, with one factor 1024 missing.
   */
  function Terabytes(t: IntType, n: int): (r: int)
    requires Fits(t, n)
    ensures Fits(U64, r)
  {
    Mul(U64, 1024, Megabytes(U64, ToU64(t, n)).value).value
  }

  /** `kmm_terabytes(n)` as evidently intended: `1024*kmm_gigabytes(n)`. */
  function TerabytesIntended(t: IntType, n: int): (r: int)
    requires Fits(t, n)
    ensures Fits(U64, r)
  {
    Mul(U64, 1024, Gigabytes(t, n)).value
  }

  // ---- Closed forms and range limits of the macros ----

  /** 1024^depth. */
  function Pow1024(depth: nat): nat {
    if depth == 0 then 1 else 1024 * Pow1024(depth - 1)
  }

  /**
   * `1024*` applied `depth` times to n, each product in n's type: the shape
   * the size macros expand to (`kmm_megabytes(n)` is `1024*(1024*n)`).
   */
  function Times1024(t: IntType, depth: nat, n: int): (r: Eval)
    requires Fits(t, n)
    ensures r.Defined? ==> Fits(t, r.value)
    ensures !Signed(t) ==> r.Defined?
  {
    if depth == 0 then Defined(n)
    else
      match Times1024(t, depth - 1, n)
      case Undefined => Undefined
      case Defined(k) => Mul(t, 1024, k)
  }

  /**
   * Nesting `1024*` depth times is the single product 1024^depth * n: reduced
   * modulo 2^width in an unsigned type, and undefined exactly when it does not
   * fit a signed type (an overflow at an inner step is an overflow at the end).
   */
  lemma {:induction false} Times1024ClosedForm(t: IntType, depth: nat, n: int)
    requires Fits(t, n)
    ensures !Signed(t) ==> Times1024(t, depth, n) == Defined((Pow1024(depth) * n) % Modulus(t))
    ensures Signed(t) ==>
      Times1024(t, depth, n) == (if Fits(t, Pow1024(depth) * n) then Defined(Pow1024(depth) * n) else Undefined)
  {
    if depth == 0 {
      if !Signed(t) { ModSmall(n, Modulus(t)); }
    } else {
      Times1024ClosedForm(t, depth - 1, n);
      var x := Pow1024(depth - 1) * n;
      assert Pow1024(depth) * n == 1024 * x by { MulAssoc(1024, Pow1024(depth - 1), n); }
      if !Signed(t) {
        UnsignedStep(t, x);
      } else {
        SignedStep(t, x);
      }
    }
  }

  lemma MulAssoc(a: int, b: int, c: int)
    ensures (a * b) * c == a * (b * c)
  {
  }

  /** One more `1024*` on a value already reduced modulo 2^width reduces the larger product. */
  lemma UnsignedStep(t: IntType, x: int)
    requires !Signed(t)
    ensures Mul(t, 1024, x % Modulus(t)) == Defined((1024 * x) % Modulus(t))
  {
    var m := Modulus(t);
    MulModForm(t, 1024, x % m);
    ModMulLeft(1024, x, m);
  }

  /** One more `1024*` keeps a representable value exact and an overflowing one overflowing. */
  lemma SignedStep(t: IntType, x: int)
    requires Signed(t)
    ensures !Fits(t, x) ==> !Fits(t, 1024 * x)
    ensures Fits(t, x) ==> Mul(t, 1024, x) == if Fits(t, 1024 * x) then Defined(1024 * x) else Undefined
  {
  }

  /**
   * Each macro is a nesting of `1024*`: `kmm_kilobytes` once and `kmm_megabytes`
   * twice in n's type, `kmm_gigabytes` and (as written) `kmm_terabytes` three
   * times in `uint64_t`; the corrected `kmm_terabytes` four times.
   */
  lemma MacrosAreNestedProducts(t: IntType, n: int)
    requires Fits(t, n)
    ensures Kilobytes(t, n) == Times1024(t, 1, n)
    ensures Megabytes(t, n) == Times1024(t, 2, n)
    ensures Gigabytes(t, n) == Times1024(U64, 3, ToU64(t, n)).value
    ensures Terabytes(t, n) == Times1024(U64, 3, ToU64(t, n)).value
    ensures TerabytesIntended(t, n) == Times1024(U64, 4, ToU64(t, n)).value
  {
    assert Times1024(t, 1, n) == Kilobytes(t, n);
    assert Times1024(t, 2, n) == Megabytes(t, n);
    var u := ToU64(t, n);
    assert Times1024(U64, 2, u) == Megabytes(U64, u) by {
      assert Times1024(U64, 1, u) == Kilobytes(U64, u);
    }
    assert Times1024(U64, 3, u).value == Gigabytes(t, n);
  }

  /** `kmm_kilobytes(n)` is the single C multiplication `1024*n`: exact exactly when it is representable. */
  lemma KilobytesExactIff(t: IntType, n: int)
    requires Fits(t, n)
    ensures Kilobytes(t, n) == Defined(KiB * n) <==> Fits(t, KiB * n)
    ensures !Signed(t) ==> Kilobytes(t, n) == Defined((KiB * n) % Modulus(t))
  {
    if !Signed(t) {
      var r := Kilobytes(t, n);
      assert (r.value - KiB * n) % Modulus(t) == 0;
      ModAddMultiple(r.value, -((r.value - KiB * n) / Modulus(t)), Modulus(t));
      ModSmall(r.value, Modulus(t));
    }
  }

  /**
   * `kmm_megabytes(n)` behaves exactly as the one C multiplication `1048576*n`
   * in the argument's type: the same wrapped value for an unsigned type, and
   * undefined behaviour exactly when `1048576*n` overflows a signed type.
   */
  lemma MegabytesClosedForm(t: IntType, n: int)
    requires Fits(t, n)
    ensures Megabytes(t, n) == Mul(t, MiB, n)
  {
    MacrosAreNestedProducts(t, n);
    Times1024ClosedForm(t, 2, n);
    if !Signed(t) { MulModForm(t, MiB, n); }
  }

  /** For an unsigned type a defined product is the mathematical product reduced modulo 2^width. */
  lemma MulModForm(t: IntType, a: int, b: int)
    requires !Signed(t) && Fits(t, a) && Fits(t, b)
    ensures Mul(t, a, b) == Defined((a * b) % Modulus(t))
  {
    var r := Mul(t, a, b).value;
    ModAddMultiple(r, -((r - a * b) / Modulus(t)), Modulus(t));
    ModSmall(r, Modulus(t));
  }

  /** `kmm_megabytes(n)` is `1048576*n` exactly when that product is representable in n's type. */
  lemma MegabytesExactIff(t: IntType, n: int)
    requires Fits(t, n)
    ensures Megabytes(t, n) == Defined(MiB * n) <==> Fits(t, MiB * n)
  {
    MegabytesClosedForm(t, n);
  }

  /**
   * With a 32-bit `int` argument, `kmm_kilobytes(n)` is defined only for
   * -2097152 <= n < 2097152 and `kmm_megabytes(n)` only for -2048 <= n < 2048;
   * outside those ranges the expression is a signed overflow.
   */
  lemma Int32Ranges(n: int)
    requires Fits(I32, n)
    ensures Kilobytes(I32, n).Defined? <==> -2097152 <= n < 2097152
    ensures Megabytes(I32, n).Defined? <==> -2048 <= n < 2048
    ensures Megabytes(I32, n).Defined? ==> Megabytes(I32, n).value == MiB * n
  {
    MegabytesClosedForm(I32, n);
  }

  /**
   * With an `unsigned int` argument the KiB/MiB forms never overflow into
   * undefined behaviour but wrap: they are exact only for n < 4194304 and
   * n < 4096 respectively.
   */
  lemma UInt32Ranges(n: int)
    requires Fits(U32, n)
    ensures Kilobytes(U32, n) == Defined(KiB * n) <==> n < 4194304
    ensures Megabytes(U32, n) == Defined(MiB * n) <==> n < 4096
    ensures Megabytes(U32, n) == Defined((MiB * n) % TWO_32)
  {
    KilobytesExactIff(U32, n);
    MegabytesExactIff(U32, n);
    MegabytesClosedForm(U32, n);
    MulModForm(U32, MiB, n);
  }

  /** `kmm_gigabytes(n)` is `1073741824 * (uint64_t)n` reduced modulo 2^64. */
  lemma GigabytesClosedForm(t: IntType, n: int)
    requires Fits(t, n)
    ensures Gigabytes(t, n) == (GiB * ToU64(t, n)) % TWO_64
  {
    MacrosAreNestedProducts(t, n);
    Times1024ClosedForm(U64, 3, ToU64(t, n));
  }

  /**
   * `kmm_gigabytes(n)` is exactly 1024^3 * n precisely for 0 <= n < 2^34;
   * a negative argument or a larger one gives a wrapped value.
   */
  lemma {:induction false} GigabytesExactIff(t: IntType, n: int)
    requires Fits(t, n)
    ensures Gigabytes(t, n) == GiB * n <==> 0 <= n < 0x4_0000_0000
  {
    GigabytesClosedForm(t, n);
    var u := ToU64(t, n);
    if n < 0 {
      assert GiB * n < 0;
    } else {
      assert u == n;
      ModExactIff(GiB * n, TWO_64);
      assert GiB * n < TWO_64 <==> n < 0x4_0000_0000;
    }
  }

  /** Every argument that fits a 32-bit type, signed or not, has an exact non-negative `kmm_gigabytes`. */
  lemma Gigabytes32Exact(t: IntType, n: int)
    requires (t == I32 || t == U32) && Fits(t, n) && 0 <= n
    ensures Gigabytes(t, n) == GiB * n
  {
    GigabytesExactIff(t, n);
  }

  /** `kmm_terabytes` and `kmm_gigabytes` agree for every argument. */
  lemma TerabytesIsGigabytes(t: IntType, n: int)
    requires Fits(t, n)
    ensures Terabytes(t, n) == Gigabytes(t, n)
  {
  }

  /** `kmm_terabytes(n)` equals 1024^4 * n for no argument except 0. */
  lemma {:induction false} TerabytesIsTiBOnlyAtZero(t: IntType, n: int)
    requires Fits(t, n)
    ensures Terabytes(t, n) == TiB * n <==> n == 0
  {
    GigabytesClosedForm(t, n);
    var r := Terabytes(t, n);
    if n < 0 {
      assert TiB * n < 0;
    } else if n > 0 {
      if GiB * n < TWO_64 {
        ModSmall(GiB * n, TWO_64);
        assert r == GiB * n < TiB * n;
      } else {
        assert r < TWO_64 <= GiB * n < TiB * n;
      }
    }
  }

  /** The argument 2 passed at main.c:27 yields 2147483648 (2 GiB), not 2 TiB. */
  lemma TerabytesOfTwo()
    ensures Terabytes(I32, 2) == 2147483648 == Gigabytes(I32, 2)
    ensures TerabytesIntended(I32, 2) == 2199023255552
  {
    Gigabytes32Exact(I32, 2);
    TerabytesIntendedExactIff(I32, 2);
  }

  /** The corrected `kmm_terabytes(n)` is `1024^4 * (uint64_t)n` reduced modulo 2^64. */
  lemma TerabytesIntendedClosedForm(t: IntType, n: int)
    requires Fits(t, n)
    ensures TerabytesIntended(t, n) == (TiB * ToU64(t, n)) % TWO_64
  {
    MacrosAreNestedProducts(t, n);
    Times1024ClosedForm(U64, 4, ToU64(t, n));
  }

  /** The corrected `kmm_terabytes(n)` is exactly 1024^4 * n precisely for 0 <= n < 2^24. */
  lemma {:induction false} TerabytesIntendedExactIff(t: IntType, n: int)
    requires Fits(t, n)
    ensures TerabytesIntended(t, n) == TiB * n <==> 0 <= n < 0x100_0000
  {
    TerabytesIntendedClosedForm(t, n);
    if n < 0 {
      assert TiB * n < 0;
    } else {
      ModExactIff(TiB * n, TWO_64);
      assert TiB * n < TWO_64 <==> n < 0x100_0000;
    }
  }

  // ---- kmm_alloc ----

  /** Status codes returned by `kmm_alloc`. */
  const CREATE_LIFETIME_FAILED: int := 0
  const CREATE_LIFETIME_SUCCESS: int := 1
  const CREATE_LIFETIME_NO_VIRTADDR: int := 2

  /** A C pointer: `NULL` or an address. */
  datatype Ptr = Null | Addr(loc: nat)

  /** What one call of `kmm_alloc` does: the status it returns, what it writes to `*store`, the size it asks `malloc` for. */
  datatype AllocOutcome = AllocOutcome(status: int, stored: Ptr, requested: int)

  /** The `void*` variable that `kmm_alloc`'s parameter `store` points to. */
  class PtrSlot {
    var value: Ptr
    constructor (p: Ptr)
      ensures value == p
    {
      value := p;
    }
  }

  /**
   * The outcome of `kmm_alloc(store, heapSize, virtAddrLoc)` when `malloc`,
   * asked for a number of bytes, returns the pointer `malloc` gives for it.
   * `heap_size` is an `int64_t` converted to the 64-bit `size_t` of `malloc`.
   */
  function AllocSpec(heapSize: int, virtAddrLoc: int, malloc: int -> Ptr): (r: AllocOutcome)
    requires Fits(I64, heapSize) && Fits(U64, virtAddrLoc)
    ensures 0 <= heapSize ==> r.requested == heapSize
    ensures heapSize < 0 ==> r.requested == heapSize + TWO_64
    ensures r.stored == malloc(r.requested)
    ensures r.status > 0 <==> r.stored != Null
    ensures r.status == CREATE_LIFETIME_NO_VIRTADDR || r.status == CREATE_LIFETIME_FAILED
  {
    var size := ToU64(I64, heapSize);
    var allocation := malloc(size);
    AllocOutcome(if allocation != Null then CREATE_LIFETIME_NO_VIRTADDR else CREATE_LIFETIME_FAILED,
                 allocation, size)
  }

  /** `kmm_alloc`: writes the allocator's result to `*store` and returns the status. */
  method KmmAlloc(store: PtrSlot, heapSize: int, virtAddrLoc: int, malloc: int -> Ptr) returns (status: int)
    requires Fits(I64, heapSize) && Fits(U64, virtAddrLoc)
    modifies store
    ensures store.value == AllocSpec(heapSize, virtAddrLoc, malloc).stored
    ensures status == AllocSpec(heapSize, virtAddrLoc, malloc).status
  {
    var allocation := malloc(ToU64(I64, heapSize));
    store.value := allocation;
    if allocation != Null {
      return CREATE_LIFETIME_NO_VIRTADDR;
    }
    return CREATE_LIFETIME_FAILED;
  }

  /** The documented polarity holds: the result is greater than 0 exactly when the allocation succeeded. */
  lemma AllocPositiveIffAllocated(heapSize: int, virtAddrLoc: int, malloc: int -> Ptr)
    requires Fits(I64, heapSize) && Fits(U64, virtAddrLoc)
    ensures AllocSpec(heapSize, virtAddrLoc, malloc).status > 0 <==> malloc(ToU64(I64, heapSize)) != Null
  {
  }

  /** `CREATE_LIFETIME_SUCCESS` is never returned. */
  lemma AllocNeverReportsSuccess(heapSize: int, virtAddrLoc: int, malloc: int -> Ptr)
    requires Fits(I64, heapSize) && Fits(U64, virtAddrLoc)
    ensures AllocSpec(heapSize, virtAddrLoc, malloc).status != CREATE_LIFETIME_SUCCESS
  {
  }

  /** `virt_addr_loc` has no effect on the outcome. */
  lemma AllocIgnoresVirtAddr(heapSize: int, v1: int, v2: int, malloc: int -> Ptr)
    requires Fits(I64, heapSize) && Fits(U64, v1) && Fits(U64, v2)
    ensures AllocSpec(heapSize, v1, malloc) == AllocSpec(heapSize, v2, malloc)
  {
  }

  /**
   * No management overhead is added: the request to `malloc` is exactly
   * `heap_size` bytes, so two allocators that agree on that one size give the
   * same outcome however they answer other sizes.
   */
  lemma AllocRequestsExactlyHeapSize(heapSize: int, virtAddrLoc: int, m1: int -> Ptr, m2: int -> Ptr)
    requires 0 <= heapSize && Fits(I64, heapSize) && Fits(U64, virtAddrLoc)
    requires m1(heapSize) == m2(heapSize)
    ensures AllocSpec(heapSize, virtAddrLoc, m1) == AllocSpec(heapSize, virtAddrLoc, m2)
    ensures AllocSpec(heapSize, virtAddrLoc, m1).requested == heapSize
  {
  }

  /**
   * The call at main.c:27, `kmm_alloc(&p, kmm_gigabytes(2), kmm_terabytes(2))`:
   * it asks `malloc` for 2147483648 bytes, and the hint passed as the
   * virtual address is that same number.
   */
  lemma MainAllocation(malloc: int -> Ptr)
    ensures Gigabytes(I32, 2) == Terabytes(I32, 2) == 2147483648
    ensures AllocSpec(Gigabytes(I32, 2), Terabytes(I32, 2), malloc).requested == 2147483648
    ensures AllocSpec(Gigabytes(I32, 2), Terabytes(I32, 2), malloc).status > 0 <==> malloc(2147483648) != Null
  {
    TerabytesOfTwo();
  }
}
