# KMemory: size-unit macros and `kmm_alloc`

A Dafny model of the code of the Kitsune Memory Manager header (KMemory). The header
exists twice in the repository: the library header `kmm/kmemory.h` and a shorter copy at
the root, `kmemory.h`. The root copy repeats the macros, the status codes, `kmm_alloc`
and `kmm_free` word for word. It differs in two ways:

- it lacks the file-level documentation comment (kmm/kmemory.h:1-59) and the
  commented-out platform defines (kmm/kmemory.h:61-62);
- it does not include `./src/platform.h` (kmm/kmemory.h:68), so it skips the `#error`
  that kmm/src/platform.h:19-21 raises when no platform is defined.

The code in each header is:

- the size-unit macros `kmm_kilobytes`, `kmm_megabytes`, `kmm_gigabytes` and
  `kmm_terabytes`, which are integer unit conversions;
- the status codes `KMM_CREATE_LIFETIME_FAILED` (0), `KMM_CREATE_LIFETIME_SUCCESS` (1)
  and `KMM_CREATE_LIFETIME_NO_VIRTADDR` (2);
- `kmm_alloc`, which asks `malloc` for the lifetime heap, writes the result to `*store`
  and returns a status code.

Files:

- `CInt.dfy` (module `CInt`) holds the C arithmetic the macros are evaluated in. A macro
  argument is a value of one of the types `int`, `unsigned int`, `int64_t` or `uint64_t`
  (`IntType`). A product that does not fit wraps modulo 2^width in an unsigned type. In a
  signed type it is undefined behaviour (`Eval.Undefined`). The cast `(uint64_t)n` adds
  2^64 to a negative value.
- `KMemory.dfy` (module `KMemory`) models `kmm/kmemory.h`. The macros are functions that
  are composed the way the macros expand. Lemmas give their closed forms and the argument
  ranges in which they are exact. `kmm_alloc` is the method `KmmAlloc`. It writes a
  `PtrSlot` (the `void*` behind `store`) and is specified by the function `AllocSpec`.
  `Times1024` is the reference definition of the macros' shape, nested `1024*`
  products. Its closed form is proved by induction on the nesting depth.
  The allocator is a parameter `malloc: int -> Ptr`: the pointer this call's `malloc`
  returns for a requested size.
- `RootKMemory.dfy` (module `RootKMemory`) writes out the root copy `kmemory.h` again. It
  proves that every macro, and the `(status, stored pointer, requested size)` of
  `kmm_alloc`, equal those of `kmm/kmemory.h` for every input.

Facts the model establishes about the code:

- `kmm_kilobytes` and `kmm_megabytes` do no widening: they compute in the argument's own
  type. With an `int` argument, `kmm_megabytes(n)` is defined only for -2048 <= n < 2048.
- `kmm_gigabytes(n)` is 1024^3 * n only for 0 <= n < 2^34. Otherwise it wraps modulo 2^64.
- `kmm_terabytes(n)` is the same expression as `kmm_gigabytes(n)`. It equals 1024^4 * n
  only at n = 0 (see Findings).
- The comment promises "greater than 0 means success", and `kmm_alloc` keeps it: it
  returns 2 exactly when the pointer it stores is non-null, and 0 otherwise.
- `kmm_alloc` never returns `KMM_CREATE_LIFETIME_SUCCESS`.
- `virt_addr_loc` has no effect on `kmm_alloc`'s outcome.
- The comment at kmm/kmemory.h:88-91 promises that extra bytes are added for the
  library's own state. The code adds none: `malloc` is asked for exactly `heap_size` bytes.
- The comment calls `heap_size` a `uint64_t`, but the code declares it `int64_t`. The model
  follows the code. A negative `heap_size` converts to the 64-bit `size_t` of `malloc` as
  `heap_size + 2^64`.
- The documentation comment of kmm/kmemory.h (lines 20-24 and 47-57) describes arenas
  and a bottom-to-top monotonic allocator. No code implements them, so they are not
  modelled.
- `kmm_alloc` stores a non-null pointer with status 2 and a null pointer with status 0.

## Model

| member | source | states |
|---|---|---|
| CInt.Mul | kmm/kmemory.h:70-71 | `a*b` in a C type: exact when it is representable. Otherwise it is congruent to the product modulo 2^width and in range for an unsigned type, and undefined exactly when it overflows a signed type. |
| CInt.ToU64 | kmm/kmemory.h:72 | `(uint64_t)n` keeps a non-negative value and adds 2^64 to a negative one. The result is a `uint64_t`. |
| KMemory.Times1024 | kmm/kmemory.h:70-73 | The nesting of `1024*` that every size macro expands to, each product in n's type. A defined result is a value of that type. It is always defined for an unsigned type. |
| KMemory.Times1024ClosedForm | kmm/kmemory.h:70-73 | Nesting `1024*` d times equals the single product 1024^d*n. In an unsigned type it is reduced modulo 2^width. In a signed type it is undefined exactly when 1024^d*n does not fit, because an overflow at an inner step is an overflow at the end. Proved by induction on d. |
| KMemory.MacrosAreNestedProducts | kmm/kmemory.h:70-73 | `kmm_kilobytes` nests `1024*` once and `kmm_megabytes` twice, in n's type. `kmm_gigabytes` and `kmm_terabytes` as written nest it three times in `uint64_t`. The corrected terabytes form nests it four times. |
| KMemory.Kilobytes | kmm/kmemory.h:70 | `kmm_kilobytes(n)` stays in n's type. It is defined exactly when n's type is unsigned or `1024*n` fits. |
| KMemory.KilobytesExactIff | kmm/kmemory.h:70 | `kmm_kilobytes(n) == 1024*n` exactly when `1024*n` is representable in n's type. For an unsigned type it is `(1024*n) mod 2^width`. |
| KMemory.Megabytes | kmm/kmemory.h:71 | `kmm_megabytes(n)` stays in n's type and is always defined for an unsigned argument. |
| KMemory.MegabytesClosedForm | kmm/kmemory.h:71 | `1024*kmm_kilobytes(n)` behaves exactly as the single product `1048576*n` in n's type. The value is the same, and the overflow is the same. |
| KMemory.MegabytesExactIff | kmm/kmemory.h:71 | `kmm_megabytes(n) == 1048576*n` exactly when that product is representable in n's type. |
| KMemory.Int32Ranges | kmm/kmemory.h:70-71 | With an `int` argument, `kmm_kilobytes` is defined exactly for -2^21 <= n < 2^21. `kmm_megabytes` is defined exactly for -2048 <= n < 2048, and then equals 1048576*n. |
| KMemory.UInt32Ranges | kmm/kmemory.h:70-71 | With an `unsigned int` argument the forms wrap modulo 2^32. They are exact exactly for n < 4194304 (KiB) and n < 4096 (MiB). |
| KMemory.Gigabytes | kmm/kmemory.h:72 | `kmm_gigabytes(n)` is a `uint64_t` for every argument type. |
| KMemory.GigabytesClosedForm | kmm/kmemory.h:72 | `kmm_gigabytes(n) == (1024^3 * (uint64_t)n) mod 2^64`. |
| KMemory.GigabytesExactIff | kmm/kmemory.h:72 | `kmm_gigabytes(n) == 1024^3*n` exactly when 0 <= n < 2^34. |
| KMemory.Gigabytes32Exact | kmm/kmemory.h:72 | Every non-negative 32-bit argument has an exact `kmm_gigabytes`. |
| KMemory.Terabytes | kmm/kmemory.h:73 | `kmm_terabytes(n)` as written, a `uint64_t`. |
| KMemory.TerabytesIsGigabytes | kmm/kmemory.h:72-73 | `kmm_terabytes(n) == kmm_gigabytes(n)` for every type and argument. |
| KMemory.TerabytesIsTiBOnlyAtZero | kmm/kmemory.h:73 | `kmm_terabytes(n) == 1024^4*n` exactly when n == 0. |
| KMemory.TerabytesOfTwo | main.c:27 | `kmm_terabytes(2)` is 2147483648, equal to `kmm_gigabytes(2)`. The corrected form gives 2199023255552. |
| KMemory.TerabytesIntended | kmm/kmemory.h:73 | The corrected `kmm_terabytes(n) = 1024*kmm_gigabytes(n)`, a `uint64_t`. |
| KMemory.TerabytesIntendedClosedForm | kmm/kmemory.h:73 | The corrected form equals `(1024^4 * (uint64_t)n) mod 2^64`. |
| KMemory.TerabytesIntendedExactIff | kmm/kmemory.h:73 | The corrected form equals 1024^4*n exactly when 0 <= n < 2^24. |
| KMemory.AllocSpec | kmm/kmemory.h:108-123 | `malloc` is asked for `heap_size` bytes, converted to `size_t`. Its result is what is stored. The status is > 0 exactly when that pointer is non-null, and it is always 2 or 0. |
| KMemory.KmmAlloc | kmm/kmemory.h:108-123 | Writes the allocator's result to `*store` on success and on failure alike, and returns the status of `AllocSpec`. |
| KMemory.AllocPositiveIffAllocated | kmm/kmemory.h:84-86 | The documented polarity: the result is greater than 0 exactly when `malloc` returned a non-null pointer. |
| KMemory.AllocNeverReportsSuccess | kmm/kmemory.h:75-77 | `KMM_CREATE_LIFETIME_SUCCESS` (1) is never returned. |
| KMemory.AllocIgnoresVirtAddr | kmm/kmemory.h:100-105 | The outcome is the same for every `virt_addr_loc`. |
| KMemory.AllocRequestsExactlyHeapSize | kmm/kmemory.h:116-117 | No overhead is added. A non-negative `heap_size` is requested as is. Allocators that agree on that one size give the same outcome. |
| KMemory.MainAllocation | main.c:27 | The demonstration call asks `malloc` for 2147483648 bytes and passes the same number as the address hint. It succeeds exactly when `malloc` returns non-null for that size. |
| RootKMemory.Kilobytes | kmemory.h:6 | `kmm_kilobytes` of the root copy stays in n's type. |
| RootKMemory.Megabytes | kmemory.h:7 | `kmm_megabytes` of the root copy stays in n's type and is defined for unsigned arguments. |
| RootKMemory.Gigabytes | kmemory.h:8 | `kmm_gigabytes` of the root copy is a `uint64_t`. |
| RootKMemory.Terabytes | kmemory.h:9 | `kmm_terabytes` of the root copy is a `uint64_t`. |
| RootKMemory.AllocSpec | kmemory.h:44-59 | The root copy's `kmm_alloc` stores what `malloc` returned for the requested size. |
| RootKMemory.MacrosAgree | kmemory.h:6-9 | Each macro of the root copy equals its counterpart in kmm/kmemory.h for every type and argument. |
| RootKMemory.AllocAgrees | kmemory.h:44-59 | The root copy's `kmm_alloc` gives the same status, stored pointer and requested size as kmm/kmemory.h's. |
| RootKMemory.ClosedForms | kmemory.h:6-9 | The root copy's macros are `1024*n`, `1048576*n` (in n's type) and `(1024^3 * (uint64_t)n) mod 2^64`. Its terabytes equals its gigabytes, and equals 1024^4*n only at 0. |
| RootKMemory.AllocStatus | kmemory.h:55-58 | The root copy returns 2 exactly when the stored pointer is non-null and 0 exactly when it is null. It never returns 1. It requests exactly a non-negative `heap_size`. |

## Left out

- The arena abstraction, the bottom-to-top monotonic allocator and `kmm_make_arena` are described only in the comment at kmm/kmemory.h:20-24 and 47-57. No code implements them.
- `malloc` and `free` are foreign calls. `malloc` is an input function that gives this call's result for a requested size. Its nondeterminism across calls is not modelled.
- `kmm_free` (kmm/kmemory.h:135-139, kmemory.h:71-75) only passes its argument to `free`.
- `RootKMemory` models the root copy's `kmm_alloc` by its outcome function only. The write to `*store` is modelled once, by `KMemory.KmmAlloc`.
- kmm/src/platform.h is compile-time platform selection with no runtime behaviour. kmm/src/platform/win32.h wraps `VirtualAlloc`/`VirtualFree` and is never included by the header.
- main.c's `printf` and `assert` are I/O. Only its call at main.c:27 is stated (`MainAllocation`).
- Textual macro hazards are not modelled. The parameter `n` is unparenthesised, so for example `kmm_kilobytes(1+1)` expands to `1024*1+1`. Arguments are treated as already-evaluated values.
- Argument types narrower than `int` promote to `int` and are covered by `I32`. `long` is platform-dependent and is not modelled separately.
- `size_t` is taken to be 64 bits wide.
- Floating-point macro arguments are not modelled, although C accepts them. For example, `kmm_megabytes(1.5)` is a `double`, and `kmm_gigabytes(1.5)` truncates to 1 GiB through `(uint64_t)`. Only the four integer types of `IntType` are covered.

## Findings

| source | as written | input that shows it | evidently intended | confidence | as-written member | corrected member |
|---|---|---|---|---|---|---|
| kmm/kmemory.h:73 | `kmm_terabytes(n)` is `1024*kmm_megabytes((uint64_t)n)`, which is 1024^3*n, the same as `kmm_gigabytes(n)` | n = 2 (main.c:27) gives 2147483648 instead of 2199023255552 | `1024*kmm_gigabytes(n)`, which is 1024^4*n modulo 2^64 | high; not executed | KMemory.TerabytesIsTiBOnlyAtZero | KMemory.TerabytesIntendedExactIff |
| kmemory.h:9 | the same expression in the root copy | n = 2 gives 2147483648 | `1024*kmm_gigabytes(n)` | high; not executed | RootKMemory.ClosedForms | KMemory.TerabytesIntendedExactIff |
