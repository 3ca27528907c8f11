/** Constants of the allocator and its size classes (common/common.h).
    A request of `b` bytes is served by size class `GetIndex(b)`, whose blocks are
    `(GetIndex(b) + 1) * ALIGNMENT` bytes long. */
module Common {

  /** `size_t` is 64 bits wide; arithmetic on it wraps modulo 2^64. */
  const SIZE_T_LIMIT: nat := 0x1_0000_0000_0000_0000

  type SizeT = n: nat | n < SIZE_T_LIMIT

  /** Reduces an integer to the `size_t` it denotes after wrap-around. */
  function Wrap(x: int): (r: SizeT)
    ensures 0 <= x < SIZE_T_LIMIT ==> r == x
    ensures x < 0 && 0 <= x + SIZE_T_LIMIT ==> r == x + SIZE_T_LIMIT
  {
    x % SIZE_T_LIMIT
  }

  const ALIGNMENT: nat := 8
  const MAX_BYTES: nat := 256 * 1024
  const FREE_LIST_SIZE: nat := MAX_BYTES / ALIGNMENT
  /** A thread-cache list longer than this is trimmed back to the central cache. */
  const SYSTEM_THRESHOLD: nat := 64
  /** Ceiling, in bytes, on one batch fetched from the central cache. */
  const MAX_BATCH_SIZE: nat := 4 * 1024

  function Max(a: nat, b: nat): nat { if a < b then b else a }
  function Min(a: nat, b: nat): nat { if a < b then a else b }

  /** `(bytes + 7) & ~7`: the sum wraps as a `size_t`; clearing the low three bits
      is taking away the remainder modulo 8. */
  function RoundUp(bytes: SizeT): (r: SizeT)
    ensures r % ALIGNMENT == 0
    ensures bytes + ALIGNMENT - 1 < SIZE_T_LIMIT ==> bytes <= r < bytes + ALIGNMENT
  {
    var sum := Wrap(bytes + ALIGNMENT - 1);
    sum - sum % ALIGNMENT
  }

  /** `(max(bytes, 8) + 7) / 8 - 1`, every step in `size_t` arithmetic. */
  function GetIndex(bytes: SizeT): (r: SizeT)
    ensures bytes + ALIGNMENT - 1 < SIZE_T_LIMIT ==>
              (r + 1) * ALIGNMENT == RoundUp(Max(bytes, ALIGNMENT))
  {
    var b := Max(bytes, ALIGNMENT);
    Wrap(Wrap(b + ALIGNMENT - 1) / ALIGNMENT - 1)
  }

  /** The size in bytes of every block of class `index`. */
  function ClassSize(index: nat): (r: nat)
    ensures r >= ALIGNMENT && r % ALIGNMENT == 0
  {
    (index + 1) * ALIGNMENT
  }

  /** Rounding is at most one alignment unit and a rounded size stays put. */
  lemma RoundUpIdempotent(bytes: SizeT)
    requires bytes + ALIGNMENT - 1 < SIZE_T_LIMIT
    ensures RoundUp(RoundUp(bytes)) == RoundUp(bytes)
  {
    var r := RoundUp(bytes);
    assert r <= SIZE_T_LIMIT - ALIGNMENT by {
      assert r % ALIGNMENT == 0 && r < SIZE_T_LIMIT && SIZE_T_LIMIT % ALIGNMENT == 0;
    }
  }

  /** The examples of the header's comment: up to 8 bytes is class 0, 16 bytes class 1. */
  lemma GetIndexExamples(bytes: SizeT)
    requires bytes <= ALIGNMENT
    ensures GetIndex(bytes) == 0
    ensures GetIndex(16) == 1
  {
  }

  /** A request and its rounded size fall in the same class. */
  lemma GetIndexOfRoundUp(bytes: SizeT)
    requires bytes + ALIGNMENT - 1 < SIZE_T_LIMIT
    ensures GetIndex(RoundUp(bytes)) == GetIndex(bytes)
  {
    RoundUpIdempotent(bytes);
    var r := RoundUp(bytes);
    assert r + ALIGNMENT - 1 < SIZE_T_LIMIT;
    if bytes <= ALIGNMENT {
      assert r <= ALIGNMENT;
    }
  }

  /** Every request the caches serve has a class below FREE_LIST_SIZE. */
  lemma GetIndexInRange(bytes: SizeT)
    requires bytes <= MAX_BYTES
    ensures GetIndex(bytes) < FREE_LIST_SIZE
  {
  }

  /** The class block is at least as large as the request, and less than one
      alignment unit larger than the request (or than the minimum block). */
  lemma ClassSizeCovers(bytes: SizeT)
    requires bytes + ALIGNMENT - 1 < SIZE_T_LIMIT
    ensures bytes <= ClassSize(GetIndex(bytes)) < Max(bytes, ALIGNMENT) + ALIGNMENT
  {
  }

  /** Larger requests never get a smaller class. */
  lemma GetIndexMonotone(a: SizeT, b: SizeT)
    requires a <= b
    requires b + ALIGNMENT - 1 < SIZE_T_LIMIT
    ensures GetIndex(a) <= GetIndex(b)
  {
  }

  /** As written, both computations wrap at the top of the `size_t` range. */
  lemma WrapAtTopOfRange()
    ensures RoundUp(SIZE_T_LIMIT - 1) == 0
    ensures GetIndex(SIZE_T_LIMIT - 1) == SIZE_T_LIMIT - 1
  {
  }
}
