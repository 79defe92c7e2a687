/**
 * The value types of the balances pallet: identifiers and amounts with the
 * machine widths the pallet uses, its five error kinds, its four event kinds,
 * and overflow-checked arithmetic on balances.
 */
module RuntimeTypes {

  /** Largest value of each unsigned machine type the pallet uses. */
  const U32_MAX: int := 0xFFFF_FFFF
  const U64_MAX: int := 0xFFFF_FFFF_FFFF_FFFF
  const U128_MAX: int := 0xFFFF_FFFF_FFFF_FFFF_FFFF_FFFF_FFFF_FFFF

  /** Account identifiers are 64-bit unsigned integers. */
  type AccountId = x: int | 0 <= x <= U64_MAX

  /** Balances (and the total issuance) are 128-bit unsigned integers. */
  type Balance = x: int | 0 <= x <= U128_MAX

  /** The block counter is a 32-bit unsigned integer. */
  type BlockNumber = x: int | 0 <= x <= U32_MAX

  /** The pallet's error kinds. InvalidValue exists but no operation produces it. */
  datatype Error =
    | InsufficientBalance
    | AccountNotFound
    | Overflow
    | Underflow
    | InvalidValue

  /** The events the pallet appends to its log. */
  datatype Event =
    | Transfer(from: AccountId, to: AccountId, amount: Balance)
    | Deposit(who: AccountId, amount: Balance)
    | Withdraw(who: AccountId, amount: Balance)
    | NewBlock(number: BlockNumber)

  /** What a fallible operation returns: success carries no value. */
  datatype Outcome = Ok | Err(error: Error)

  datatype Option<T> = None | Some(value: T)

  /** Addition that reports, instead of wrapping, a sum above the 128-bit maximum. */
  function CheckedAdd(a: Balance, b: Balance): (r: Option<Balance>)
    ensures r.Some? <==> a + b <= U128_MAX
    ensures r.Some? ==> r.value - a == b
  {
    if a + b <= U128_MAX then Some(a + b) else None
  }

  /** Subtraction that reports, instead of wrapping, a difference below zero. */
  function CheckedSub(a: Balance, b: Balance): (r: Option<Balance>)
    ensures r.Some? <==> b <= a
    ensures r.Some? ==> r.value + b == a
  {
    if b <= a then Some(a - b) else None
  }
}
