/**
 * The implicit tree shape of the binary heap: the record at index i has its
 * children at 2i+1 and 2i+2, and its parent at (i-1)/2.
 *
 * The C macros compute in 32-bit integers; here indices are unbounded, and the
 * 32-bit evaluation of the macros is modelled separately (LeftAsWritten,
 * RightAsWritten, ParentAsWritten) because it changes the tree shape once an
 * index reaches 2^31 - 1.
 */
module HeapIndex {

  /** Index of the parent of i.  The C macro divides (i - 1) by 2 with
      truncation toward zero, so the root is its own parent: (0 - 1) / 2 == 0. */
  function Parent(i: nat): (p: nat)
    ensures i == 0 ==> p == 0
    ensures i > 0 ==> p < i && (i == 2 * p + 1 || i == 2 * p + 2)
  {
    if i == 0 then 0 else (i - 1) / 2
  }

  /** Index of the left child of i. */
  function Left(i: nat): (l: nat)
    ensures i < l && Parent(l) == i
  {
    2 * i + 1
  }

  /** Index of the right child of i, next to the left one. */
  function Right(i: nat): (r: nat)
    ensures Left(i) < r && Parent(r) == i
  {
    2 * i + 2
  }

  /** The children of i are exactly the non-root indices whose parent is i:
      Parent is the inverse of Left and Right. */
  lemma ParentIsInverse(i: nat, c: nat)
    requires 0 < c
    ensures Parent(c) == i <==> c == Left(i) || c == Right(i)
  {
  }

  const U32_MODULUS: nat := 0x1_0000_0000

  /** PQ_LEFT as the C code evaluates it for a u32 index: the product is formed
      in 32 bits and stored back into a u32, so it is taken modulo 2^32
      (assuming the signed overflow wraps, as on two's-complement targets). */
  function LeftAsWritten(i: nat): (l: nat)
    requires i < U32_MODULUS
    ensures l < U32_MODULUS
    ensures i < U32_MODULUS / 2 ==> l == Left(i)
  {
    (2 * i + 1) % U32_MODULUS
  }

  /** From index 2^31 on, the wrapped "left child" is no child at all: it lies
      before the node, so the bound check `L < items` in the sift-down lets a
      record that is not below the node be compared and swapped with it. */
  lemma LeftAsWrittenWraps()
    ensures LeftAsWritten(U32_MODULUS / 2) == 1
    ensures Parent(LeftAsWritten(U32_MODULUS / 2)) != U32_MODULUS / 2
    ensures LeftAsWritten(U32_MODULUS / 2) < U32_MODULUS / 2
  {
  }

  /** PQ_RIGHT as the C code evaluates it for a u32 index, modulo 2^32 under
      the same wrap-around assumption as LeftAsWritten. */
  function RightAsWritten(i: nat): (r: nat)
    requires i < U32_MODULUS
    ensures r < U32_MODULUS
    ensures i < U32_MODULUS / 2 - 1 ==> r == Right(i)
  {
    (2 * i + 2) % U32_MODULUS
  }

  /** The right child wraps one index earlier than the left one: at 2^31 - 1
      the "right child" is 0, the root.  That index is live once the queue
      holds 2^31 records, and the bound check `R < items` always lets slot 0
      through, so the sift-down may swap the node with the root. */
  lemma RightAsWrittenWraps()
    ensures RightAsWritten(U32_MODULUS / 2 - 1) == 0
    ensures Parent(RightAsWritten(U32_MODULUS / 2 - 1)) != U32_MODULUS / 2 - 1
    ensures LeftAsWritten(U32_MODULUS / 2 - 1) == U32_MODULUS - 1
  {
  }

  /** The u32 index as the signed 32-bit value the `(i32)` cast gives: indices
      from 2^31 on become negative (the conversion is implementation-defined in
      C; two's complement assumed). */
  function AsSigned(i: nat): (s: int)
    requires i < U32_MODULUS
    ensures -(U32_MODULUS / 2) <= s < U32_MODULUS / 2
    ensures s % U32_MODULUS == i
  {
    if i < U32_MODULUS / 2 then i else i - U32_MODULUS
  }

  /** Division by 2 truncating toward zero, as C's `/` on a signed integer. */
  function HalfTowardZero(n: int): (h: int)
    ensures 0 <= n ==> 0 <= h && 2 * h <= n < 2 * h + 2
    ensures n < 0 ==> h <= 0 && 2 * h - 2 < n <= 2 * h
  {
    if 0 <= n then n / 2 else -((-n) / 2)
  }

  /** PQ_PARENT as the C code evaluates it for a u32 index: the index is cast
      to i32, decremented (wrapping at 2^31, where the decrement is a signed
      overflow), halved toward zero, and the quotient is stored back into a
      u32, so a negative quotient is taken modulo 2^32. */
  function ParentAsWritten(i: nat): (p: nat)
    requires i < U32_MODULUS
    ensures p < U32_MODULUS
    ensures i <= U32_MODULUS / 2 ==> p == Parent(i)
  {
    HalfTowardZero(AsSigned((i + U32_MODULUS - 1) % U32_MODULUS)) % U32_MODULUS
  }

  /** Just past index 2^31 the computed "parent" is no parent at all: at
      2^31 + 1 it is 3 * 2^30, which lies after the node, so the sift-up
      compares the new record with a slot that is not above it (and may be
      past the live records).  Here the decrement does not overflow: only the
      implementation-defined cast is involved. */
  lemma ParentAsWrittenWraps()
    ensures ParentAsWritten(U32_MODULUS / 2 + 1) == 3 * (U32_MODULUS / 4)
    ensures Parent(U32_MODULUS / 2 + 1) == U32_MODULUS / 4
    ensures ParentAsWritten(U32_MODULUS / 2 + 1) > U32_MODULUS / 2 + 1
  {
  }
}
