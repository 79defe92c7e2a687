/**
 * The pallet's storage as a value, and each operation of the pallet as a
 * function from the storage before the call to the outcome and the storage
 * after it. The functions follow the order of reads, checks and writes of the
 * pallet's code, so a write that happens before a later check fails is kept.
 */
module Ledger {
  import opened RuntimeTypes

  /** The four components of the pallet's storage. */
  datatype Storage = Storage(
    balances: map<AccountId, Balance>,
    totalIssuance: Balance,
    blockNumber: BlockNumber,
    events: seq<Event>)

  /** Fresh storage: no accounts, no issuance, block 0, an empty log. */
  function NewStorage(): (s: Storage)
    ensures s.balances == map[] && s.totalIssuance == 0
    ensures s.blockNumber == 0 && s.events == []
  {
    Storage(map[], 0, 0, [])
  }

  /** The stored balance of `who`, or 0 when it has no entry. */
  function BalanceOf(s: Storage, who: AccountId): (b: Balance)
    ensures who in s.balances ==> b == s.balances[who]
    ensures who !in s.balances ==> b == 0
  {
    if who in s.balances then s.balances[who] else 0
  }

  /** Appends one event to the log and changes nothing else. */
  function EmitEvent(s: Storage, e: Event): (t: Storage)
    ensures t.balances == s.balances && t.totalIssuance == s.totalIssuance
    ensures t.blockNumber == s.blockNumber
    ensures |t.events| == |s.events| + 1 && t.events[|s.events|] == e
    ensures t.events[..|s.events|] == s.events
  {
    s.(events := s.events + [e])
  }

  /**
   * deposit(who, amount) as written: the entry is created with 0 if absent,
   * the new balance is written, and only then is the issuance addition
   * checked, so an issuance overflow returns Overflow after the balance
   * has changed.
   */
  function Deposit(s: Storage, who: AccountId, amount: Balance): (r: (Outcome, Storage))
    ensures s.balances.Keys <= r.1.balances.Keys
    ensures r.1.blockNumber == s.blockNumber
    ensures r.0 != Ok ==> r.0 == Err(Overflow)
    ensures r.0 != Ok ==> r.1.totalIssuance == s.totalIssuance && r.1.events == s.events
  {
    var balance := BalanceOf(s, who);
    var inserted := s.balances[who := balance];
    match CheckedAdd(balance, amount)
    case None => (Err(Overflow), s.(balances := inserted))
    case Some(newBalance) =>
      var credited := inserted[who := newBalance];
      match CheckedAdd(s.totalIssuance, amount)
      case None => (Err(Overflow), s.(balances := credited))
      case Some(newTotal) =>
        (Ok, EmitEvent(s.(balances := credited, totalIssuance := newTotal), Event.Deposit(who, amount)))
  }

  /**
   * deposit(who, amount) with both additions checked before either is
   * written: a failure changes nothing.
   */
  function DepositAtomic(s: Storage, who: AccountId, amount: Balance): (r: (Outcome, Storage))
    ensures s.balances.Keys <= r.1.balances.Keys
    ensures r.0 != Ok ==> r.0 == Err(Overflow) && r.1 == s
  {
    var balance := BalanceOf(s, who);
    match CheckedAdd(balance, amount)
    case None => (Err(Overflow), s)
    case Some(newBalance) =>
      match CheckedAdd(s.totalIssuance, amount)
      case None => (Err(Overflow), s)
      case Some(newTotal) =>
        (Ok, EmitEvent(s.(balances := s.balances[who := newBalance], totalIssuance := newTotal),
                       Event.Deposit(who, amount)))
  }

  /**
   * withdraw(who, amount) as written: a missing entry and a balance below
   * `amount` are rejected first; then the balance is written before the
   * issuance subtraction is checked.
   */
  function Withdraw(s: Storage, who: AccountId, amount: Balance): (r: (Outcome, Storage))
    ensures r.1.balances.Keys == s.balances.Keys
    ensures r.1.blockNumber == s.blockNumber
    ensures r.0 != Ok ==> r.1.totalIssuance == s.totalIssuance && r.1.events == s.events
  {
    if who !in s.balances then (Err(AccountNotFound), s)
    else
      var balance := s.balances[who];
      if balance < amount then (Err(InsufficientBalance), s)
      else
        match CheckedSub(balance, amount)
        case None => (Err(Underflow), s)
        case Some(newBalance) =>
          var debited := s.balances[who := newBalance];
          match CheckedSub(s.totalIssuance, amount)
          case None => (Err(Underflow), s.(balances := debited))
          case Some(newTotal) =>
            (Ok, EmitEvent(s.(balances := debited, totalIssuance := newTotal), Event.Withdraw(who, amount)))
  }

  /**
   * transfer(from, to, amount) as written: `from` must exist and hold at
   * least `amount`; the entry of `to` is created with 0 if absent and
   * credited; then `from` is read again (after the credit, which matters
   * when from == to) and debited. The issuance is not touched.
   */
  function Transfer(s: Storage, from: AccountId, to: AccountId, amount: Balance): (r: (Outcome, Storage))
    ensures s.balances.Keys <= r.1.balances.Keys
    ensures r.1.totalIssuance == s.totalIssuance && r.1.blockNumber == s.blockNumber
    ensures r.0 != Ok ==> r.1.events == s.events
  {
    if from !in s.balances then (Err(AccountNotFound), s)
    else
      var fromBalance := s.balances[from];
      if fromBalance < amount then (Err(InsufficientBalance), s)
      else
        var toBalance := BalanceOf(s, to);
        var inserted := s.balances[to := toBalance];
        match CheckedAdd(toBalance, amount)
        case None => (Err(Overflow), s.(balances := inserted))
        case Some(newTo) =>
          var credited: map<AccountId, Balance> := inserted[to := newTo];
          match CheckedSub(credited[from], amount)
          case None => (Err(Underflow), s.(balances := credited))
          case Some(newFrom) =>
            (Ok, EmitEvent(s.(balances := credited[from := newFrom]), Event.Transfer(from, to, amount)))
  }

  /** next_block(): the counter rises by one and the new number is logged. */
  function NextBlock(s: Storage): (t: Storage)
    requires s.blockNumber < U32_MAX
    ensures t.balances == s.balances && t.totalIssuance == s.totalIssuance
    ensures t.blockNumber > s.blockNumber
  {
    EmitEvent(s.(blockNumber := s.blockNumber + 1), NewBlock(s.blockNumber + 1))
  }

  // ---------------------------------------------------------------------
  // The sum of the balances and the conservation law
  // ---------------------------------------------------------------------

  /** The sum of all balances in the map. */
  ghost function Sum(m: map<AccountId, Balance>): (total: int)
    ensures total >= 0
    decreases |m|
  {
    if m == map[] then 0
    else
      var k :| k in m;
      assert |(m - {k}).Keys| < |m.Keys| by { assert (m - {k}).Keys == m.Keys - {k}; }
      m[k] + Sum(m - {k})
  }

  /** Conservation: the issuance equals the sum of the balances. */
  ghost predicate Conserved(s: Storage) {
    s.totalIssuance == Sum(s.balances)
  }

  /** Any one entry can be taken out of the sum, whichever the sum chose first. */
  lemma {:induction false} SumRemove(m: map<AccountId, Balance>, k: AccountId)
    requires k in m
    ensures Sum(m) == m[k] + Sum(m - {k})
    decreases |m|
  {
    var j :| j in m && Sum(m) == m[j] + Sum(m - {j});
    if j != k {
      assert (m - {j}).Keys == m.Keys - {j};
      assert (m - {k}).Keys == m.Keys - {k};
      SumRemove(m - {j}, k);
      SumRemove(m - {k}, j);
      assert m - {j} - {k} == m - {k} - {j};
    }
  }

  /** Writing `v` at `k` changes the sum by `v` minus what `k` held (0 if absent). */
  lemma SumUpdate(m: map<AccountId, Balance>, k: AccountId, v: Balance)
    ensures Sum(m[k := v]) == Sum(m) - (if k in m then m[k] else 0) + v
  {
    SumRemove(m[k := v], k);
    if k in m {
      SumRemove(m, k);
      assert m[k := v] - {k} == m - {k};
    } else {
      assert m[k := v] - {k} == m;
    }
  }

  /** Under conservation no single balance exceeds the issuance. */
  lemma ConservedBoundsBalance(s: Storage, who: AccountId)
    requires Conserved(s)
    ensures BalanceOf(s, who) <= s.totalIssuance
  {
    if who in s.balances {
      SumRemove(s.balances, who);
    }
  }

  /** Fresh storage is conserved. */
  lemma NewStorageConserved()
    ensures Conserved(NewStorage())
  {
  }

  // ---------------------------------------------------------------------
  // deposit
  // ---------------------------------------------------------------------

  /**
   * deposit succeeds exactly when neither addition overflows; it then adds
   * `amount` to the balance (creating the entry) and to the issuance, leaves
   * every other account and the block counter alone, and logs Deposit.
   */
  lemma DepositSucceeds(s: Storage, who: AccountId, amount: Balance)
    ensures Deposit(s, who, amount).0 == Ok <==>
              BalanceOf(s, who) + amount <= U128_MAX && s.totalIssuance + amount <= U128_MAX
    ensures Deposit(s, who, amount).0 == Ok ==>
              var t := Deposit(s, who, amount).1;
              && who in t.balances
              && BalanceOf(t, who) == BalanceOf(s, who) + amount
              && t.totalIssuance == s.totalIssuance + amount
              && (forall a :: a != who ==> BalanceOf(t, a) == BalanceOf(s, a))
              && t.balances.Keys == s.balances.Keys + {who}
              && t.blockNumber == s.blockNumber
              && t.events == s.events + [Event.Deposit(who, amount)]
  {
  }

  /**
   * When the balance addition overflows, deposit returns Overflow and the
   * storage is unchanged; this can only happen to an existing entry.
   */
  lemma DepositBalanceOverflow(s: Storage, who: AccountId, amount: Balance)
    requires BalanceOf(s, who) + amount > U128_MAX
    ensures who in s.balances
    ensures Deposit(s, who, amount) == (Err(Overflow), s)
  {
    assert s.balances[who := s.balances[who]] == s.balances;
  }

  /**
   * The quirk of deposit: when only the issuance addition overflows, it
   * returns Overflow but the balance has already been raised by `amount`
   * (and the entry created); issuance, block counter and log are unchanged.
   */
  lemma DepositIssuanceOverflow(s: Storage, who: AccountId, amount: Balance)
    requires BalanceOf(s, who) + amount <= U128_MAX
    requires s.totalIssuance + amount > U128_MAX
    ensures var (r, t) := Deposit(s, who, amount);
            && r == Err(Overflow)
            && t.balances == s.balances[who := BalanceOf(s, who) + amount]
            && t.balances != s.balances
            && t.totalIssuance == s.totalIssuance
            && t.blockNumber == s.blockNumber
            && t.events == s.events
  {
  }

  /** Hence that failed deposit breaks conservation whenever it held before. */
  lemma DepositIssuanceOverflowBreaksConservation(s: Storage, who: AccountId, amount: Balance)
    requires Conserved(s)
    requires BalanceOf(s, who) + amount <= U128_MAX
    requires s.totalIssuance + amount > U128_MAX
    ensures Deposit(s, who, amount).0 == Err(Overflow)
    ensures !Conserved(Deposit(s, who, amount).1)
  {
    DepositIssuanceOverflow(s, who, amount);
    SumUpdate(s.balances, who, BalanceOf(s, who) + amount);
  }

  /** A successful deposit keeps conservation. */
  lemma DepositConserves(s: Storage, who: AccountId, amount: Balance)
    requires Conserved(s)
    requires Deposit(s, who, amount).0 == Ok
    ensures Conserved(Deposit(s, who, amount).1)
  {
    var balance := BalanceOf(s, who);
    SumUpdate(s.balances, who, balance);
    SumUpdate(s.balances[who := balance], who, balance + amount);
  }

  /**
   * The checked-first deposit returns what deposit returns, agrees with it
   * on success, and changes nothing on failure.
   */
  lemma DepositAtomicAgrees(s: Storage, who: AccountId, amount: Balance)
    ensures DepositAtomic(s, who, amount).0 == Deposit(s, who, amount).0
    ensures Deposit(s, who, amount).0 == Ok ==> DepositAtomic(s, who, amount) == Deposit(s, who, amount)
    ensures DepositAtomic(s, who, amount).0 != Ok ==> DepositAtomic(s, who, amount).1 == s
  {
    var balance := BalanceOf(s, who);
    if balance + amount <= U128_MAX {
      assert s.balances[who := balance][who := balance + amount] == s.balances[who := balance + amount];
    }
  }

  /** The checked-first deposit keeps conservation on every outcome. */
  lemma DepositAtomicConserves(s: Storage, who: AccountId, amount: Balance)
    requires Conserved(s)
    ensures Conserved(DepositAtomic(s, who, amount).1)
  {
    DepositAtomicAgrees(s, who, amount);
    if Deposit(s, who, amount).0 == Ok {
      DepositConserves(s, who, amount);
    }
  }

  // ---------------------------------------------------------------------
  // withdraw
  // ---------------------------------------------------------------------

  /** withdraw rejects a missing entry and a short balance without any change. */
  lemma WithdrawRejects(s: Storage, who: AccountId, amount: Balance)
    ensures who !in s.balances ==> Withdraw(s, who, amount) == (Err(AccountNotFound), s)
    ensures who in s.balances && s.balances[who] < amount ==>
              Withdraw(s, who, amount) == (Err(InsufficientBalance), s)
  {
  }

  /**
   * withdraw succeeds exactly when the entry exists and both the balance and
   * the issuance cover `amount` (an amount equal to the balance is allowed);
   * it then subtracts `amount` from both and logs Withdraw.
   */
  lemma WithdrawSucceeds(s: Storage, who: AccountId, amount: Balance)
    ensures Withdraw(s, who, amount).0 == Ok <==>
              who in s.balances && amount <= s.balances[who] && amount <= s.totalIssuance
    ensures Withdraw(s, who, amount).0 == Ok ==>
              var t := Withdraw(s, who, amount).1;
              && t.balances == s.balances[who := s.balances[who] - amount]
              && t.totalIssuance == s.totalIssuance - amount
              && t.blockNumber == s.blockNumber
              && t.events == s.events + [Event.Withdraw(who, amount)]
  {
  }

  /**
   * The Underflow checks never fire when the issuance covers the balance,
   * and then every failure leaves the storage unchanged.
   */
  lemma WithdrawNoUnderflow(s: Storage, who: AccountId, amount: Balance)
    requires BalanceOf(s, who) <= s.totalIssuance
    ensures Withdraw(s, who, amount).0 != Err(Underflow)
    ensures Withdraw(s, who, amount).0 != Ok ==> Withdraw(s, who, amount).1 == s
  {
  }

  /**
   * Mirror of the deposit quirk: when the issuance is below `amount` but the
   * balance is not, withdraw returns Underflow with the balance already
   * lowered. Only a storage that is not conserved can get here.
   */
  lemma WithdrawIssuanceUnderflow(s: Storage, who: AccountId, amount: Balance)
    requires who in s.balances && amount <= s.balances[who]
    requires s.totalIssuance < amount
    ensures !Conserved(s)
    ensures Withdraw(s, who, amount) ==
              (Err(Underflow), s.(balances := s.balances[who := s.balances[who] - amount]))
  {
    if Conserved(s) {
      ConservedBoundsBalance(s, who);
    }
  }

  /** On a conserved storage withdraw keeps conservation on every outcome. */
  lemma WithdrawConserves(s: Storage, who: AccountId, amount: Balance)
    requires Conserved(s)
    ensures Conserved(Withdraw(s, who, amount).1)
  {
    ConservedBoundsBalance(s, who);
    if Withdraw(s, who, amount).0 == Ok {
      SumUpdate(s.balances, who, s.balances[who] - amount);
    }
  }

  // ---------------------------------------------------------------------
  // transfer
  // ---------------------------------------------------------------------

  /** Every failed transfer leaves the storage unchanged, and Underflow never occurs. */
  lemma TransferFailureIsNoop(s: Storage, from: AccountId, to: AccountId, amount: Balance)
    ensures Transfer(s, from, to, amount).0 != Err(Underflow)
    ensures Transfer(s, from, to, amount).0 != Ok ==> Transfer(s, from, to, amount).1 == s
  {
  }

  /**
   * The error transfer returns: AccountNotFound for a missing `from`,
   * InsufficientBalance when it holds less than `amount`, Overflow when
   * crediting `to` (which must then exist) would exceed the maximum.
   */
  lemma TransferErrors(s: Storage, from: AccountId, to: AccountId, amount: Balance)
    ensures from !in s.balances ==> Transfer(s, from, to, amount).0 == Err(AccountNotFound)
    ensures from in s.balances && s.balances[from] < amount ==>
              Transfer(s, from, to, amount).0 == Err(InsufficientBalance)
    ensures from in s.balances && amount <= s.balances[from] ==>
              (Transfer(s, from, to, amount).0 == Err(Overflow) <==> BalanceOf(s, to) + amount > U128_MAX)
    ensures Transfer(s, from, to, amount).0 == Err(Overflow) ==> to in s.balances
  {
  }

  /**
   * A successful transfer between two accounts debits `from`, credits `to`
   * (creating it), changes no other account, keeps the issuance and the
   * block counter, and logs Transfer.
   */
  lemma TransferSucceeds(s: Storage, from: AccountId, to: AccountId, amount: Balance)
    requires from != to
    ensures Transfer(s, from, to, amount).0 == Ok <==>
              from in s.balances && amount <= s.balances[from] && BalanceOf(s, to) + amount <= U128_MAX
    ensures Transfer(s, from, to, amount).0 == Ok ==>
              var t := Transfer(s, from, to, amount).1;
              && BalanceOf(t, from) == BalanceOf(s, from) - amount
              && BalanceOf(t, to) == BalanceOf(s, to) + amount
              && to in t.balances
              && (forall a :: a != from && a != to ==> BalanceOf(t, a) == BalanceOf(s, a))
              && t.balances.Keys == s.balances.Keys + {to}
              && t.totalIssuance == s.totalIssuance
              && t.blockNumber == s.blockNumber
              && t.events == s.events + [Event.Transfer(from, to, amount)]
  {
  }

  /**
   * A transfer from an account to itself leaves every balance as it was and
   * only logs Transfer; it is still refused with Overflow when balance plus
   * `amount` exceeds the maximum, because the credit is checked first.
   */
  lemma TransferToSelf(s: Storage, who: AccountId, amount: Balance)
    ensures Transfer(s, who, who, amount).0 == Ok <==>
              who in s.balances && amount <= s.balances[who] && s.balances[who] + amount <= U128_MAX
    ensures Transfer(s, who, who, amount).0 == Ok ==>
              Transfer(s, who, who, amount).1 == s.(events := s.events + [Event.Transfer(who, who, amount)])
  {
  }

  /** transfer keeps conservation on every outcome. */
  lemma TransferConserves(s: Storage, from: AccountId, to: AccountId, amount: Balance)
    requires Conserved(s)
    ensures Conserved(Transfer(s, from, to, amount).1)
  {
    TransferFailureIsNoop(s, from, to, amount);
    if Transfer(s, from, to, amount).0 == Ok {
      var toBalance := BalanceOf(s, to);
      var inserted := s.balances[to := toBalance];
      var credited := inserted[to := toBalance + amount];
      SumUpdate(s.balances, to, toBalance);
      SumUpdate(inserted, to, toBalance + amount);
      SumUpdate(credited, from, credited[from] - amount);
    }
  }

  // ---------------------------------------------------------------------
  // next_block
  // ---------------------------------------------------------------------

  /**
   * next_block raises the counter by exactly one, logs NewBlock with the
   * raised number, and leaves balances and issuance alone.
   */
  lemma NextBlockAdvances(s: Storage)
    requires s.blockNumber < U32_MAX
    ensures var t := NextBlock(s);
            && t.blockNumber == s.blockNumber + 1
            && t.events == s.events + [NewBlock(t.blockNumber)]
            && t.balances == s.balances
            && t.totalIssuance == s.totalIssuance
            && Conserved(t) == Conserved(s)
  {
  }
}
