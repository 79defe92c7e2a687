/**
 * Sequences of calls on the pallet: the event log grows in call order by one
 * event per successful state-changing call, the block counter counts the
 * next_block calls, and conservation holds along every run once deposit
 * checks both additions before writing either.
 */
module Trace {
  import opened RuntimeTypes
  import opened Ledger

  /** One call of the pallet's public surface. */
  datatype Call =
    | DepositCall(who: AccountId, amount: Balance)
    | WithdrawCall(who: AccountId, amount: Balance)
    | TransferCall(from: AccountId, to: AccountId, amount: Balance)
    | NextBlockCall
    | BalanceOfCall(who: AccountId)
    | TotalIssuanceCall
    | BlockNumberCall
    | EventsCall

  /** Which deposit a run uses: the pallet's, or the one that checks both additions first. */
  datatype DepositRule = AsWritten | CheckedFirst

  /** The calls that can change the storage; the others are queries. */
  predicate Mutating(c: Call) {
    c.DepositCall? || c.WithdrawCall? || c.TransferCall? || c.NextBlockCall?
  }

  /** The number of next_block calls in a run. */
  function NextBlocks(calls: seq<Call>): (n: nat)
    ensures n <= |calls|
  {
    if calls == [] then 0
    else (if calls[0].NextBlockCall? then 1 else 0) + NextBlocks(calls[1..])
  }

  /** The effect of one call. Queries and next_block never fail. */
  function Step(s: Storage, c: Call, rule: DepositRule): (r: (Outcome, Storage))
    requires c.NextBlockCall? ==> s.blockNumber < U32_MAX
    ensures r.1.blockNumber == s.blockNumber + (if c.NextBlockCall? then 1 else 0)
    ensures s.balances.Keys <= r.1.balances.Keys
  {
    match c
    case DepositCall(who, amount) =>
      if rule == AsWritten then Ledger.Deposit(s, who, amount) else DepositAtomic(s, who, amount)
    case WithdrawCall(who, amount) => Ledger.Withdraw(s, who, amount)
    case TransferCall(from, to, amount) => Ledger.Transfer(s, from, to, amount)
    case NextBlockCall => (Ok, NextBlock(s))
    case _ => (Ok, s)
  }

  /** The storage after a run of calls; an account, once created, is never removed. */
  function Run(s: Storage, calls: seq<Call>, rule: DepositRule): (t: Storage)
    requires s.blockNumber + NextBlocks(calls) <= U32_MAX
    ensures s.balances.Keys <= t.balances.Keys
    decreases |calls|
  {
    if calls == [] then s
    else Run(Step(s, calls[0], rule).1, calls[1..], rule)
  }

  /** The event a successful state-changing call records, read from the call itself. */
  function Announce(s: Storage, c: Call): (e: Event)
    requires Mutating(c)
    requires c.NextBlockCall? ==> s.blockNumber < U32_MAX
    ensures c.NextBlockCall? <==> e.NewBlock?
  {
    match c
    case DepositCall(who, amount) => Event.Deposit(who, amount)
    case WithdrawCall(who, amount) => Event.Withdraw(who, amount)
    case TransferCall(from, to, amount) => Event.Transfer(from, to, amount)
    case NextBlockCall => NewBlock(s.blockNumber + 1)
  }

  /** The events a run should record: one per successful state-changing call, in call order. */
  function Emitted(s: Storage, calls: seq<Call>, rule: DepositRule): (log: seq<Event>)
    requires s.blockNumber + NextBlocks(calls) <= U32_MAX
    ensures |log| <= |calls|
    decreases |calls|
  {
    if calls == [] then []
    else
      var (r, t) := Step(s, calls[0], rule);
      (if r == Ok && Mutating(calls[0]) then [Announce(s, calls[0])] else [])
      + Emitted(t, calls[1..], rule)
  }

  /** One call appends its own event when it succeeds and changes the state, and nothing otherwise. */
  lemma StepEvents(s: Storage, c: Call, rule: DepositRule)
    requires c.NextBlockCall? ==> s.blockNumber < U32_MAX
    ensures Step(s, c, rule).1.events ==
              s.events + (if Step(s, c, rule).0 == Ok && Mutating(c) then [Announce(s, c)] else [])
  {
  }

  /** The log after a run is the log before it followed by the run's events, in call order. */
  lemma {:induction false} RunEvents(s: Storage, calls: seq<Call>, rule: DepositRule)
    requires s.blockNumber + NextBlocks(calls) <= U32_MAX
    ensures Run(s, calls, rule).events == s.events + Emitted(s, calls, rule)
    decreases |calls|
  {
    if calls != [] {
      var t := Step(s, calls[0], rule).1;
      StepEvents(s, calls[0], rule);
      RunEvents(t, calls[1..], rule);
    }
  }

  /** The block counter after a run is the counter before it plus the number of next_block calls. */
  lemma {:induction false} RunBlockNumber(s: Storage, calls: seq<Call>, rule: DepositRule)
    requires s.blockNumber + NextBlocks(calls) <= U32_MAX
    ensures Run(s, calls, rule).blockNumber == s.blockNumber + NextBlocks(calls)
    decreases |calls|
  {
    if calls != [] {
      RunBlockNumber(Step(s, calls[0], rule).1, calls[1..], rule);
    }
  }

  /** With the checked-first deposit, every call keeps conservation, whatever its outcome. */
  lemma StepConserves(s: Storage, c: Call)
    requires Conserved(s)
    requires c.NextBlockCall? ==> s.blockNumber < U32_MAX
    ensures Conserved(Step(s, c, CheckedFirst).1)
  {
    match c
    case DepositCall(who, amount) => DepositAtomicConserves(s, who, amount);
    case WithdrawCall(who, amount) => WithdrawConserves(s, who, amount);
    case TransferCall(from, to, amount) => TransferConserves(s, from, to, amount);
    case _ =>
  }

  /** With the checked-first deposit, a failed call leaves a conserved storage exactly as it was. */
  lemma StepFailureIsNoop(s: Storage, c: Call)
    requires Conserved(s)
    requires c.NextBlockCall? ==> s.blockNumber < U32_MAX
    ensures Step(s, c, CheckedFirst).0 != Ok ==> Step(s, c, CheckedFirst).1 == s
  {
    match c
    case DepositCall(who, amount) => DepositAtomicAgrees(s, who, amount);
    case WithdrawCall(who, amount) =>
      ConservedBoundsBalance(s, who);
      WithdrawNoUnderflow(s, who, amount);
    case TransferCall(from, to, amount) => TransferFailureIsNoop(s, from, to, amount);
    case _ =>
  }

  /** With the checked-first deposit, conservation holds after every run from a conserved storage. */
  lemma {:induction false} RunConserves(s: Storage, calls: seq<Call>)
    requires Conserved(s)
    requires s.blockNumber + NextBlocks(calls) <= U32_MAX
    ensures Conserved(Run(s, calls, CheckedFirst))
    decreases |calls|
  {
    if calls != [] {
      StepConserves(s, calls[0]);
      RunConserves(Step(s, calls[0], CheckedFirst).1, calls[1..]);
    }
  }

  /**
   * The write-then-check order of withdraw is reachable from a fresh pallet
   * through the deposit above: after deposit(1, max), deposit(2, 1) and
   * withdraw(1, max) the issuance is 0 while account 2 holds 1, so
   * withdraw(2, 1) returns Underflow with account 2 already lowered to 0.
   */
  lemma AsWrittenRunPartialWithdraw()
    ensures var s1 := Ledger.Deposit(NewStorage(), 1, U128_MAX).1;
            var s2 := Ledger.Deposit(s1, 2, 1).1;
            var s3 := Ledger.Withdraw(s2, 1, U128_MAX).1;
            && Ledger.Deposit(s1, 2, 1).0 == Err(Overflow)
            && Ledger.Withdraw(s2, 1, U128_MAX).0 == Ok
            && BalanceOf(s3, 2) == 1 && s3.totalIssuance == 0
            && Ledger.Withdraw(s3, 2, 1).0 == Err(Underflow)
            && BalanceOf(Ledger.Withdraw(s3, 2, 1).1, 2) == 0
  {
  }

  /**
   * With the pallet's deposit as written, two calls on a fresh pallet break
   * conservation: deposit(1, max) fills the issuance, deposit(2, 1) then
   * fails with Overflow yet leaves account 2 holding 1.
   */
  lemma AsWrittenRunBreaksConservation()
    ensures var calls := [DepositCall(1, U128_MAX), DepositCall(2, 1)];
            && !Conserved(Run(NewStorage(), calls, AsWritten))
            && Conserved(Run(NewStorage(), calls, CheckedFirst))
  {
    var calls := [DepositCall(1, U128_MAX), DepositCall(2, 1)];
    var s0 := NewStorage();
    var s1 := Ledger.Deposit(s0, 1, U128_MAX).1;
    NewStorageConserved();
    DepositConserves(s0, 1, U128_MAX);
    DepositIssuanceOverflowBreaksConservation(s1, 2, 1);
    assert Run(s0, calls, AsWritten) == Ledger.Deposit(s1, 2, 1).1 by {
      assert Step(s0, calls[0], AsWritten).1 == s1;
      assert calls[1..] == [DepositCall(2, 1)];
      assert Run(s1, [DepositCall(2, 1)], AsWritten) == Ledger.Deposit(s1, 2, 1).1 by {
        assert [DepositCall(2, 1)][1..] == [];
      }
    }
    RunConserves(s0, calls);
  }
}
