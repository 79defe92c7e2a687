/**
 * The balances pallet as an object: four fields updated in place. Each
 * operation is one atomic method whose new state and result are those of the
 * matching function of module Ledger, so everything proved there about the
 * functions holds of the object.
 */
module Pallet {
  import opened RuntimeTypes
  import Ledger

  class BalancesPallet {
    var balances: map<AccountId, Balance>
    var totalIssuance: Balance
    var blockNumber: BlockNumber
    var events: seq<Event>

    /** The four fields as one storage value. */
    function Snapshot(): Ledger.Storage
      reads this
    {
      Ledger.Storage(balances, totalIssuance, blockNumber, events)
    }

    /** A fresh pallet over fresh storage. */
    constructor ()
      ensures Snapshot() == Ledger.NewStorage()
      ensures Ledger.Conserved(Snapshot())
    {
      var storage := Ledger.NewStorage();
      balances := storage.balances;
      totalIssuance := storage.totalIssuance;
      blockNumber := storage.blockNumber;
      events := storage.events;
      Ledger.NewStorageConserved();
    }

    /** Appends one event to the log. */
    method EmitEvent(e: Event)
      modifies this
      ensures events == old(events) + [e]
      ensures balances == old(balances) && totalIssuance == old(totalIssuance)
      ensures blockNumber == old(blockNumber)
    {
      events := events + [e];
    }

    /** deposit: credits `who` and the issuance, in that order. */
    method Deposit(who: AccountId, amount: Balance) returns (r: Outcome)
      modifies this
      ensures (r, Snapshot()) == Ledger.Deposit(old(Snapshot()), who, amount)
    {
      var balance := if who in balances then balances[who] else 0;
      balances := balances[who := balance];
      var newBalance := CheckedAdd(balance, amount);
      if newBalance.None? {
        return Err(Overflow);
      }
      balances := balances[who := newBalance.value];
      var newTotal := CheckedAdd(totalIssuance, amount);
      if newTotal.None? {
        return Err(Overflow);
      }
      totalIssuance := newTotal.value;
      EmitEvent(Event.Deposit(who, amount));
      return Ok;
    }

    /** withdraw: debits `who` and the issuance, in that order. */
    method Withdraw(who: AccountId, amount: Balance) returns (r: Outcome)
      modifies this
      ensures (r, Snapshot()) == Ledger.Withdraw(old(Snapshot()), who, amount)
    {
      if who !in balances {
        return Err(AccountNotFound);
      }
      var balance := balances[who];
      if balance < amount {
        return Err(InsufficientBalance);
      }
      var newBalance := CheckedSub(balance, amount);
      if newBalance.None? {
        return Err(Underflow);
      }
      balances := balances[who := newBalance.value];
      var newTotal := CheckedSub(totalIssuance, amount);
      if newTotal.None? {
        return Err(Underflow);
      }
      totalIssuance := newTotal.value;
      EmitEvent(Event.Withdraw(who, amount));
      return Ok;
    }

    /**
     * transfer: credits `to`, then debits `from`; by the contract of
     * Ledger.Transfer the issuance and the block counter are untouched.
     */
    method Transfer(from: AccountId, to: AccountId, amount: Balance) returns (r: Outcome)
      modifies this
      ensures (r, Snapshot()) == Ledger.Transfer(old(Snapshot()), from, to, amount)
    {
      if from !in balances {
        return Err(AccountNotFound);
      }
      var fromBalance := balances[from];
      if fromBalance < amount {
        return Err(InsufficientBalance);
      }
      var toBalance := if to in balances then balances[to] else 0;
      balances := balances[to := toBalance];
      var newTo := CheckedAdd(toBalance, amount);
      if newTo.None? {
        return Err(Overflow);
      }
      balances := balances[to := newTo.value];
      var newFrom := CheckedSub(balances[from], amount);
      if newFrom.None? {
        return Err(Underflow);
      }
      balances := balances[from := newFrom.value];
      EmitEvent(Event.Transfer(from, to, amount));
      return Ok;
    }

    /** next_block: raises the counter and logs the new number. */
    method NextBlock()
      requires blockNumber < U32_MAX
      modifies this
      ensures Snapshot() == Ledger.NextBlock(old(Snapshot()))
      ensures blockNumber == old(blockNumber) + 1
      ensures events == old(events) + [NewBlock(blockNumber)]
    {
      blockNumber := blockNumber + 1;
      EmitEvent(NewBlock(blockNumber));
    }

    /** balance_of: the stored balance, or 0 for an account with no entry. */
    function BalanceOf(who: AccountId): (b: Balance)
      reads this
      ensures who in balances ==> b == balances[who]
      ensures who !in balances ==> b == 0
    {
      Ledger.BalanceOf(Snapshot(), who)
    }

    /** total_issuance: the current issuance. */
    function TotalIssuance(): (total: Balance)
      reads this
      ensures total == Snapshot().totalIssuance
    {
      totalIssuance
    }

    /** block_number: the current block counter. */
    function CurrentBlock(): (n: BlockNumber)
      reads this
      ensures n == Snapshot().blockNumber
    {
      blockNumber
    }

    /** events: the whole log in append order; reading it does not clear it. */
    function Events(): (log: seq<Event>)
      reads this
      ensures log == Snapshot().events
    {
      events
    }
  }

  // -----------------------------------------------------------------------
  // The repository's unit tests, replayed on the object
  // -----------------------------------------------------------------------

  /** deposit(1, 1000) on a fresh pallet. */
  method DepositScenario() returns (r: Outcome, balance: Balance, issuance: Balance)
    ensures r == Ok && balance == 1000 && issuance == 1000
  {
    var pallet := new BalancesPallet();
    r := pallet.Deposit(1, 1000);
    balance := pallet.BalanceOf(1);
    issuance := pallet.TotalIssuance();
  }

  /** deposit(1, 1000) then withdraw(1, 500). */
  method WithdrawScenario() returns (r: Outcome, balance: Balance, issuance: Balance)
    ensures r == Ok && balance == 500 && issuance == 500
  {
    var pallet := new BalancesPallet();
    var d := pallet.Deposit(1, 1000);
    assert d == Ok;
    r := pallet.Withdraw(1, 500);
    balance := pallet.BalanceOf(1);
    issuance := pallet.TotalIssuance();
  }

  /** deposit(1, 100) then withdraw(1, 200), which is refused. */
  method WithdrawInsufficientScenario() returns (r: Outcome, balance: Balance)
    ensures r == Err(InsufficientBalance) && balance == 100
  {
    var pallet := new BalancesPallet();
    var d := pallet.Deposit(1, 100);
    assert d == Ok;
    r := pallet.Withdraw(1, 200);
    balance := pallet.BalanceOf(1);
  }

  /** withdraw(99, 10) on a pallet where account 99 was never funded. */
  method WithdrawUnknownScenario() returns (r: Outcome, log: seq<Event>)
    ensures r == Err(AccountNotFound) && log == []
  {
    var pallet := new BalancesPallet();
    r := pallet.Withdraw(99, 10);
    log := pallet.Events();
  }

  /** deposit(1, 1000) then transfer(1, 2, 300). */
  method TransferScenario() returns (r: Outcome, from: Balance, to: Balance, issuance: Balance)
    ensures r == Ok && from == 700 && to == 300 && issuance == 1000
  {
    var pallet := new BalancesPallet();
    var d := pallet.Deposit(1, 1000);
    assert d == Ok;
    r := pallet.Transfer(1, 2, 300);
    from := pallet.BalanceOf(1);
    to := pallet.BalanceOf(2);
    issuance := pallet.TotalIssuance();
  }

  /** deposit(1, 100) then transfer(1, 2, 50): the log holds both, in that order. */
  method EventsScenario() returns (log: seq<Event>)
    ensures log == [Event.Deposit(1, 100), Event.Transfer(1, 2, 50)]
  {
    var pallet := new BalancesPallet();
    var d := pallet.Deposit(1, 100);
    assert d == Ok;
    var t := pallet.Transfer(1, 2, 50);
    assert t == Ok;
    log := pallet.Events();
  }

  /** The block counter starts at 0 and next_block raises it to 1. */
  method BlockNumberScenario() returns (before: BlockNumber, after: BlockNumber, log: seq<Event>)
    ensures before == 0 && after == 1 && log == [NewBlock(1)]
  {
    var pallet := new BalancesPallet();
    before := pallet.CurrentBlock();
    pallet.NextBlock();
    after := pallet.CurrentBlock();
    log := pallet.Events();
  }
}
