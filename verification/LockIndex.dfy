/** Which global mutex a session key is hashed to (`_global_lock`, `_global_trylock` and
    `_global_unlock`, src/_apachemodule.c). */
module LockIndex {

  const INT_MIN: int := -0x8000_0000

  /** The conversion of a Python hash to a C `int` of 32 bits. */
  function ToInt32(h: int): (r: int)
    ensures INT_MIN <= r < -INT_MIN
  {
    var low := h % 0x1_0000_0000;
    if low < 0x8000_0000 then low else low - 0x1_0000_0000
  }

  /** C's `abs`, which leaves the least integer as it is. */
  function Abs32(i: int): int {
    if i == INT_MIN then INT_MIN else if i < 0 then -i else i
  }

  /** C's remainder, which has the sign of the dividend. */
  function CRem(a: int, b: int): int
    requires b > 0
  {
    if a < 0 then -(-a % b) else a % b
  }

  datatype Result = Index(index: int) | HashError

  function KeyedIndex(hash: int, nlocks: nat): Result
    requires nlocks >= 2
  {
    var h := ToInt32(hash);
    if h == -1 then HashError else Index(CRem(Abs32(h), nlocks - 1) + 1)
  }

  /** The index stays clear of mutex 0, and inside the array, exactly when the hash is not the
      least 32-bit integer, or the number of keyed mutexes is a power of two that divides it. */
  lemma KeyedIndexInRangeIff(hash: int, nlocks: nat)
    requires nlocks >= 2 && ToInt32(hash) != -1
    ensures 1 <= KeyedIndex(hash, nlocks).index < nlocks <==>
            ToInt32(hash) != INT_MIN || 0x8000_0000 % (nlocks - 1) == 0
  {
  }

  /** With the 32 mutexes that are the default, such a hash is out of the array. */
  lemma LeastHashIsOutOfRange(hash: int)
    requires ToInt32(hash) == INT_MIN
    ensures KeyedIndex(hash, 32) == Index(-1)
  {
  }

  /** For every other hash the index is that of the absolute value of its lower 32 bits, as a signed
      number; only -1 is an error. */
  lemma KeyedIndexIs(h: int, k: int, nlocks: nat)
    requires nlocks >= 2 && -0x8000_0000 < h < 0x8000_0000
    ensures KeyedIndex(h + k * 0x1_0000_0000, nlocks) ==
            if h == -1 then HashError else Index((if h < 0 then -h else h) % (nlocks - 1) + 1)
  {
    LowerBits(h, k);
  }

  lemma LowerBits(h: int, k: int)
    requires -0x8000_0000 <= h < 0x8000_0000
    ensures ToInt32(h + k * 0x1_0000_0000) == h
  {
    var x := h + k * 0x1_0000_0000;
    if h >= 0 {
      assert x / 0x1_0000_0000 == k;
    } else {
      assert x / 0x1_0000_0000 == k - 1;
    }
  }
}
