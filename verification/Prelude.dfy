/** Datatypes and fixed-width integer types shared by every module. */
module Prelude {
  datatype Option<+T> = None | Some(value: T)

  datatype Result<+T, +E> = Ok(value: T) | Err(error: E)

  const U16_LIMIT: int := 0x1_0000
  const U32_LIMIT: int := 0x1_0000_0000
  const U64_LIMIT: int := 0x1_0000_0000_0000_0000

  type byte = b: int | 0 <= b < 0x100
  type u16 = n: int | 0 <= n < 0x1_0000
  type u32 = n: int | 0 <= n < 0x1_0000_0000
  type u64 = n: int | 0 <= n < 0x1_0000_0000_0000_0000
  /** Sixteen bytes read as one number, zero exactly when all of them are. */
  type u128 = n: int | 0 <= n < 0x1_0000_0000_0000_0000_0000_0000_0000_0000
  type i32 = n: int | -0x8000_0000 <= n < 0x8000_0000

  const U64_MAX: u64 := 0xFFFF_FFFF_FFFF_FFFF

  /** `u64::saturating_add(1)`. */
  function SaturatingSucc(n: u64): (r: u64)
    ensures n < U64_MAX ==> r == n + 1
    ensures n == U64_MAX ==> r == U64_MAX
  {
    if n == U64_MAX then n else n + 1
  }

  lemma SomeMember(s: set<int>)
    requires s != {}
    ensures exists x :: x in s
  {
    if forall x :: x !in s {
      assert false;
    }
  }
}
