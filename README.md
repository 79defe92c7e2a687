# Balances pallet ledger, modelled in Dafny

This project models `BalancesPallet`, a small in-memory ledger state machine:
- a map from 64-bit account ids to 128-bit balances;
- a total-issuance scalar;
- a 32-bit block counter;
- an append-only event log.

The pallet offers three fallible operations, `deposit`, `withdraw` and `transfer`.
Each returns `Ok` or one of five error kinds.
`next_block` never fails. The queries are `balance_of`, `total_issuance`, `block_number` and `events`.

Files:
- `runtime_types.dfy` (module `RuntimeTypes`): the machine widths as subset types (`AccountId`, `Balance`, `BlockNumber`), the `Error` and `Event` enums, the `Outcome` result type and checked addition and subtraction.
- `ledger.dfy` (module `Ledger`): the storage as a value (`Storage`).
  - Each operation is a function from the storage before the call to the outcome and the storage after it.
  - The functions keep the code's order of reads, checks and writes.
  - The lemmas state what each operation does and how it interacts with conservation. Conservation means the issuance equals `Sum` of the balances.
- `trace.dfy` (module `Trace`): runs of calls.
  - The log grows in call order, by one event per successful state-changing call.
  - The block counter counts the `next_block` calls.
  - Conservation holds along every run, but only with the corrected deposit (see Findings).
- `pallet.dfy` (module `Pallet`): the class `BalancesPallet`. Its four fields are updated in place by imperative methods.
  - Each method's contract makes its result and new state equal to the matching `Ledger` function, so the lemmas apply to the object.
  - Client methods replay the repository's unit tests.

The class keeps the code as written, including the order of writes in `deposit`.
On a conserved storage, every failed `withdraw` and `transfer` leaves the storage unchanged (`Ledger.WithdrawNoUnderflow`, `Ledger.TransferFailureIsNoop`).
A balance raised without the issuance breaks the law that the issuance equals the sum of the balances, which the tests check (src/lib.rs:170-171, 179-180).
`deposit` does not have that property even on a conserved storage: it writes the new balance before checking the issuance addition.
The model follows the code. The lemma `Ledger.DepositIssuanceOverflow` states the resulting state, and the Findings table records the discrepancy.

## Model

| member | source | states |
|---|---|---|
| `RuntimeTypes.CheckedAdd` | src/lib.rs:81-82 | `checked_add`: no result exactly when the sum exceeds 2^128−1, otherwise the exact sum |
| `RuntimeTypes.CheckedSub` | src/lib.rs:98-99 | `checked_sub`: no result exactly when the subtrahend exceeds the minuend, otherwise the exact difference |
| `Ledger.NewStorage` | src/lib.rs:46-54 | fresh storage has no balances, issuance 0, block 0 and an empty log |
| `Ledger.NewStorageConserved` | src/lib.rs:47-54 | fresh storage satisfies conservation |
| `Ledger.BalanceOf` | src/lib.rs:125-127 | the stored balance, or 0 when the account has no entry |
| `Ledger.EmitEvent` | src/lib.rs:146-148 | appends exactly the given event at the end of the log; balances, issuance and counter are unchanged |
| `Ledger.Deposit` | src/lib.rs:76-86 | `deposit` as written: never removes an account and never moves the counter; its only error is `Overflow`, which leaves issuance and log unchanged. Its full behaviour is stated by `Ledger.DepositSucceeds`, `Ledger.DepositBalanceOverflow` and `Ledger.DepositIssuanceOverflow` |
| `Ledger.DepositAtomic` | src/lib.rs:76-86 | the corrected deposit: a failure is `Overflow` and leaves the storage unchanged. Related to `Ledger.Deposit` by `Ledger.DepositAtomicAgrees` |
| `Ledger.Withdraw` | src/lib.rs:89-103 | `withdraw` as written: keeps the set of accounts and the counter, and a failure leaves issuance and log unchanged. Its full behaviour is stated by `Ledger.WithdrawRejects`, `Ledger.WithdrawSucceeds` and `Ledger.WithdrawIssuanceUnderflow` |
| `Ledger.Transfer` | src/lib.rs:106-122 | `transfer` as written: never removes an account and never changes the issuance or the counter, and a failure logs nothing. Its full behaviour is stated by `Ledger.TransferErrors`, `Ledger.TransferSucceeds`, `Ledger.TransferToSelf` and `Ledger.TransferFailureIsNoop` |
| `Ledger.NextBlock` | src/lib.rs:135-139 | `next_block`: leaves balances and issuance alone and raises the counter. The exact effect is stated by `Ledger.NextBlockAdvances` |
| `Ledger.DepositSucceeds` | src/lib.rs:76-86 | deposit succeeds iff neither addition overflows. On success: the balance and issuance each rise by exactly `amount`, the entry is created if absent, other accounts and the block counter are unchanged, and exactly `Deposit{who, amount}` is appended |
| `Ledger.DepositBalanceOverflow` | src/lib.rs:80-81 | a balance overflow returns `Overflow` and changes nothing; it can only happen to an existing entry |
| `Ledger.DepositIssuanceOverflow` | src/lib.rs:80-82 | when only the issuance addition overflows, it returns `Overflow`, yet the balance is already raised; issuance, counter and log are unchanged |
| `Ledger.DepositIssuanceOverflowBreaksConservation` | src/lib.rs:80-82 | that failed deposit turns a conserved storage into one that is not |
| `Ledger.DepositConserves` | src/lib.rs:76-86 | a successful deposit preserves conservation |
| `Ledger.DepositAtomicAgrees` | src/lib.rs:76-86 | the checked-first deposit returns the same outcome, agrees on success and changes nothing on failure |
| `Ledger.DepositAtomicConserves` | src/lib.rs:76-86 | the checked-first deposit preserves conservation on every outcome |
| `Ledger.WithdrawRejects` | src/lib.rs:93-96 | a missing entry gives `AccountNotFound`, a balance below `amount` gives `InsufficientBalance`; neither changes anything |
| `Ledger.WithdrawSucceeds` | src/lib.rs:89-103 | withdraw succeeds iff the entry exists and balance and issuance both cover `amount` (equality allowed). On success both drop by `amount` and `Withdraw{who, amount}` is appended |
| `Ledger.WithdrawNoUnderflow` | src/lib.rs:94-99 | when issuance ≥ balance the `Underflow` checks never fire, and every failure leaves the storage unchanged |
| `Ledger.WithdrawIssuanceUnderflow` | src/lib.rs:98-99 | issuance below `amount` with the balance covering it returns `Underflow` with the balance already lowered; only an unconserved storage gets there |
| `Ledger.WithdrawConserves` | src/lib.rs:89-103 | on a conserved storage withdraw preserves conservation on every outcome |
| `Ledger.TransferFailureIsNoop` | src/lib.rs:106-122 | transfer never returns `Underflow`, and every failed transfer leaves the storage unchanged |
| `Ledger.TransferErrors` | src/lib.rs:109-115 | `AccountNotFound` for a missing `from`; `InsufficientBalance` when it holds less than `amount`; `Overflow` iff crediting `to` exceeds the maximum, and then `to` already exists |
| `Ledger.TransferSucceeds` | src/lib.rs:106-122 | between two accounts: succeeds iff `from` exists and covers `amount` and crediting `to` fits. On success `from` drops and `to` rises by `amount`, `to` is created if absent, other accounts, issuance and counter are unchanged, and `Transfer{from, to, amount}` is appended |
| `Ledger.TransferToSelf` | src/lib.rs:114-118 | a self-transfer, when it succeeds, changes only the log; it fails with `Overflow` when balance + `amount` exceeds the maximum |
| `Ledger.TransferConserves` | src/lib.rs:106-122 | transfer preserves conservation on every outcome |
| `Ledger.NextBlockAdvances` | src/lib.rs:135-139 | the counter rises by exactly one, `NewBlock` with the raised number is appended, balances and issuance are unchanged |
| `Trace.Step` | src/lib.rs:135-139 | only a `next_block` call moves the block counter, and by exactly one |
| `Trace.Run` | src/lib.rs:76-153 | the storage after a run of calls; an account, once created, is never removed by any run |
| `Trace.StepEvents` | src/lib.rs:146-148 | one call appends its own event when it succeeds and mutates, and nothing otherwise |
| `Trace.RunEvents` | src/lib.rs:146-153 | after a run, the log is the old log followed by one event per successful state-changing call, in call order |
| `Trace.RunBlockNumber` | src/lib.rs:135-144 | after a run, the counter is the old counter plus the number of `next_block` calls |
| `Trace.StepConserves` | src/lib.rs:76-122 | with the checked-first deposit, every call keeps conservation |
| `Trace.StepFailureIsNoop` | src/lib.rs:76-122 | with the checked-first deposit, a failed call leaves a conserved storage exactly as it was |
| `Trace.RunConserves` | src/lib.rs:76-122 | with the checked-first deposit, every run from a conserved storage ends conserved |
| `Trace.AsWrittenRunPartialWithdraw` | src/lib.rs:98-99 | on a fresh pallet, after `deposit(1, 2^128−1)`, `deposit(2, 1)` and `withdraw(1, 2^128−1)`, the call `withdraw(2, 1)` returns `Underflow` yet lowers account 2 from 1 to 0 |
| `Trace.AsWrittenRunBreaksConservation` | src/lib.rs:80-82 | on a fresh pallet, `deposit(1, 2^128−1)` then `deposit(2, 1)` breaks conservation as written, but not with the checked-first deposit |
| `Pallet.BalancesPallet.constructor` | src/lib.rs:69-73 | a new pallet holds fresh storage, which is conserved |
| `Pallet.BalancesPallet.EmitEvent` | src/lib.rs:146-148 | appends the event and changes nothing else |
| `Pallet.BalancesPallet.Deposit` | src/lib.rs:76-86 | result and new state are those of `Ledger.Deposit` on the old state |
| `Pallet.BalancesPallet.Withdraw` | src/lib.rs:89-103 | result and new state are those of `Ledger.Withdraw` on the old state |
| `Pallet.BalancesPallet.Transfer` | src/lib.rs:106-122 | result and new state are those of `Ledger.Transfer`, so by its contract issuance and counter are unchanged |
| `Pallet.BalancesPallet.NextBlock` | src/lib.rs:135-139 | new state is `Ledger.NextBlock` of the old: counter plus one, `NewBlock` appended |
| `Pallet.BalancesPallet.BalanceOf` | src/lib.rs:125-127 | the stored balance, or 0 for an account with no entry |
| `Pallet.BalancesPallet.TotalIssuance` | src/lib.rs:130-132 | the current issuance |
| `Pallet.BalancesPallet.CurrentBlock` | src/lib.rs:142-144 | the current block counter |
| `Pallet.BalancesPallet.Events` | src/lib.rs:151-153 | the whole log in append order (a function cannot clear it) |
| `Pallet.DepositScenario` | src/lib.rs:166-172 | `deposit(1, 1000)` gives balance 1000 and issuance 1000 |
| `Pallet.WithdrawScenario` | src/lib.rs:174-181 | then `withdraw(1, 500)` gives balance 500 and issuance 500 |
| `Pallet.WithdrawInsufficientScenario` | src/lib.rs:183-188 | `withdraw(1, 200)` against 100 returns `InsufficientBalance`, balance stays 100 |
| `Pallet.WithdrawUnknownScenario` | src/lib.rs:93 | `withdraw(99, 10)` on a never-funded account returns `AccountNotFound` and logs nothing |
| `Pallet.TransferScenario` | src/lib.rs:190-197 | `transfer(1, 2, 300)` after `deposit(1, 1000)` gives balances 700 and 300, issuance 1000 |
| `Pallet.EventsScenario` | src/lib.rs:199-209 | the log is exactly `[Deposit{1,100}, Transfer{1,2,50}]` |
| `Pallet.BlockNumberScenario` | src/lib.rs:211-217 | the counter is 0, then 1 after `next_block`, and `NewBlock{1}` is logged |

## Findings

| source | as written | input that shows it | evidently intended | confidence | as-written member | corrected member |
|---|---|---|---|---|---|---|
| src/lib.rs:80-82 | `deposit` stores the raised balance before checking the issuance addition. An issuance overflow returns `Overflow` with the balance already changed | on a fresh pallet, `deposit(1, 2^128−1)` then `deposit(2, 1)`: the second returns `Overflow` yet leaves `balance_of(2) == 1` with issuance 2^128−1, so issuance ≠ sum of balances | check both additions before writing either, so a failed deposit changes nothing and conservation holds along every run | high; not executed | `Ledger.Deposit`, shown by `Trace.AsWrittenRunBreaksConservation` | `Ledger.DepositAtomic`, proved by `Ledger.DepositAtomicConserves` and `Trace.RunConserves` |

The class `Pallet.BalancesPallet` models the code, so it keeps the as-written deposit.
`Trace` takes the deposit rule as a parameter:
- facts that hold either way (event order, block counter) are proved for both rules;
- conservation along runs and the no-op-on-failure law are proved for the corrected rule, which is the only one that has them.

The same write-then-check order appears in `withdraw` (src/lib.rs:98-99).
`Ledger.WithdrawIssuanceUnderflow` shows it is reachable only from a storage that is no longer conserved, such as one left by the deposit above.

## Left out

- Locking: the `RwLock` around each component, the order of lock acquisition and the `.unwrap()` on a poisoned lock are not modelled. Each operation is one atomic method or function.
- `HashMap` internals: the balances are a Dafny `map`. A missing key means "no entry", which is distinct from an entry holding 0.
- `Pallet.BalancesPallet.NextBlock`: requires the counter to be below 2^32−1. Rust's overflow of `*block_number += 1` (a panic in debug builds, a wrap in release builds) is not modelled. `Ledger.NextBlock`, `Trace.Step` and `Trace.Run` carry the same bound.
- `Default` impls and the `Debug`/`Clone`/`PartialEq` derives are not modelled. Event and error values compare by value in Dafny.
- `Error::InvalidValue` is in the datatype, but no operation produces it, as in the code.
- `events()` returns a clone of the log. A Dafny `seq` is a value, so the copy is implicit.
- The unit tests' `.unwrap()` panics on an error. The scenario methods instead assert that each such intermediate outcome is `Ok`, and return the final outcome and state.
